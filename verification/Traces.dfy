/** Runs of the daemon that meet the limits of its fixed-size tables. */
module Traces {
  import opened Bytes
  import opened Addr
  import opened ProbeTable
  import opened Daemon
  import opened Reconcile
  import opened System
  import AntiReplay
  import DaemonRates
  import RateLimit
  import R = RateLimitRuns
  import Replay
  import Auth
  import Lifetime

  // ---- common steps -------------------------------------------------------------------------

  /** A client's packet, handled at `now`. */
  function Knock(cfg: Config, sentAt: nat, now: nat, src: SockAddr): Event {
    Packet(now, now, ClientPacket(cfg.secret, sentAt), src, true)
  }

  lemma EmptyAllows(ip: Ip, now: nat)
    ensures RateLimit.Allowed(RateLimit.Empty(), ip, now)
    ensures RateLimit.Success(RateLimit.Empty(), ip) == RateLimit.Empty()
  {
    hide Home;
  }

  /** An accepted packet on an empty failure table leaves it empty. */
  lemma StaysForgiven(cfg: Config, s: State, e: Event)
    requires Shaped(s) && s.rate == RateLimit.Empty() && (e.Packet? ==> Accepts(cfg, s, e).Some?)
    ensures Step(cfg, s, e).rate == RateLimit.Empty()
  {
    hide Step, Accepts, Key, RateLimit.Allowed, RateLimit.Empty, RateLimit.Success;
    DaemonRates.StepRate(cfg, s, e);
    if e.Packet? {
      EmptyAllows(Key(e.src), e.now);
    }
  }

  /** A loop pass. */
  function Pass(now: nat): Event { Tick(now, now, []) }

  /** A pass at which nothing in the replay table is too old. */
  lemma QuietPass(cfg: Config, s: State, now: nat)
    requires Shaped(s) && s.rate == RateLimit.Empty()
    requires forall p :: 0 <= p < 64 ==> !Replay.Expired(s.replay[p], now, REPLAY_MAX_AGE)
    ensures var s' := Step(cfg, s, Pass(now)); s'.replay == s.replay && s'.rate == RateLimit.Empty()
  {
    hide PruneCheck, RateLimit.Empty;
    AntiReplay.TickTable(cfg, s, Pass(now));
    StaysForgiven(cfg, s, Pass(now));
    assert Replay.Prune(s.replay, now, REPLAY_MAX_AGE) == s.replay;
  }

  lemma PassTime(cfg: Config, s: State, now: nat)
    requires Shaped(s) && s.lastPrune <= now
    ensures Step(cfg, s, Pass(now)).lastPrune <= now
  {
    hide Rebuild;
    var s1 := s.(lastPrune := now, replay := Replay.Prune(s.replay, now, REPLAY_MAX_AGE));
    Lifetime.RebuildKeeps(cfg, s1, s1.numRules, now, []);
  }

  /** The first pass, at half a minute. */
  lemma FirstPass(cfg: Config)
    ensures var s := Step(cfg, Init(0), Pass(30));
            s.replay == Replay.Empty() && s.rate == RateLimit.Empty() && s.lastPrune <= 30
  {
    hide Step, Init, RateLimit.Empty;
    InitTables();
    QuietPass(cfg, Init(0), 30);
    PassTime(cfg, Init(0), 30);
  }

  lemma InitTables()
    ensures Init(0).rate == RateLimit.Empty() && Init(0).replay == Replay.Empty() && Init(0).lastPrune == 0
  {
  }

  lemma RunStep(cfg: Config, es: seq<Event>, n: nat)
    requires n < |es|
    ensures Run(cfg, 0, es, 0) == Init(0) && Run(cfg, 0, es, n + 1) == Step(cfg, Run(cfg, 0, es, n), es[n])
  {
    hide Step;
  }

  // ---- a token accepted twice -----------------------------------------------------------------

  /** Host a knocks, almost an hour later host b, and b's datagram comes again after the pass that sweeps
      a's entry. */
  function ReplayEvents(cfg: Config, a: SockAddr, b: SockAddr): seq<Event> {
    [Pass(30), Knock(cfg, 30, 30, a), Pass(3620), Knock(cfg, 3620, 3620, b), Pass(3636), Knock(cfg, 3620, 3636, b)]
  }

  lemma ReplayClocks(cfg: Config, a: SockAddr, b: SockAddr)
    ensures ClocksRun(0, 0, ReplayEvents(cfg, a, b))
  {
    hide ClientPacket;
  }

  /** The table when only the first two slots from the common home on are taken, by a and then b. */
  ghost predicate TwoSlots(t: Replay.Slots, a: Ip, b: Ip, seenA: nat, seenB: nat) {
    && |t| == 64 && a != b && Home(a) == Home(b)
    && t[Pos(a, 0)].used && t[Pos(a, 0)].ip == a && t[Pos(a, 0)].rec.lastSeen == seenA
    && t[Pos(a, 1)].used && t[Pos(a, 1)].ip == b && t[Pos(a, 1)].rec.lastSeen == seenB
  }

  lemma SecondSlot(a: Ip, b: Ip, ra: Replay.Record, rb: Replay.Record)
    requires a != b && Home(a) == Home(b)
    ensures var t1 := Put(Replay.Empty(), a, ra);
            && Lookup(t1, b).None? && Target(t1, b).Some?
            && TwoSlots(Put(t1, b, rb), a, b, ra.lastSeen, rb.lastSeen)
  {
    hide Home;
    var t0 := Replay.Empty();
    ProbeIs(t0, a, 0);
    var t1 := Put(t0, a, ra);
    assert Pos(b, 0) == Pos(a, 0) && Pos(b, 1) == Pos(a, 1) && Pos(a, 0) != Pos(a, 1);
    ProbeIs(t1, b, 1);
  }

  lemma SweptFirst(t: Replay.Slots, a: Ip, b: Ip)
    requires TwoSlots(t, a, b, 30, 3620)
    ensures var t' := Replay.Prune(t, 3636, REPLAY_MAX_AGE); Lookup(t', b).None? && Target(t', b).Some?
  {
    hide Home;
    var t' := Replay.Prune(t, 3636, REPLAY_MAX_AGE);
    assert Pos(b, 0) == Pos(a, 0);
    ProbeIs(t', b, 0);
  }

  lemma FreshTable(ip: Ip)
    ensures Lookup(Replay.Empty(), ip).None? && Target(Replay.Empty(), ip).Some?
  {
    hide Home;
    ProbeIs(Replay.Empty(), ip, 0);
  }

  /** A sender the table does not know. */
  lemma StrangerAccepted(cfg: Config, s: State, sentAt: nat, now: nat, src: SockAddr)
    requires Shaped(s) && s.rate == RateLimit.Empty() && Near(sentAt, now)
    requires Lookup(s.replay, Key(src)).None? && Target(s.replay, Key(src)).Some?
    ensures Accepts(cfg, s, Knock(cfg, sentAt, now, src)).Some?
  {
    hide Accepts, Key, Target, Lookup, RateLimit.Allowed, RateLimit.Empty, ClientPacket;
    EmptyAllows(Key(src), now);
    ClientAccepted(cfg, s, Knock(cfg, sentAt, now, src), sentAt);
  }

  /** Two events of a run are one and the same datagram from one and the same sender, and both are accepted. */
  ghost predicate AcceptedTwice(cfg: Config, es: seq<Event>, i: nat, j: nat) {
    && i < j < |es| && es[i].Packet? && es[j].Packet? && es[i].data == es[j].data && es[i].src == es[j].src
    && Accepts(cfg, Run(cfg, 0, es, i), es[i]).Some? && Accepts(cfg, Run(cfg, 0, es, j), es[j]).Some?
  }

  /** Up to the first packet. */
  lemma FirstKnock(cfg: Config, a: SockAddr) returns (c: nat)
    ensures var s1 := Step(cfg, Init(0), Pass(30)); var s2 := Step(cfg, s1, Knock(cfg, 30, 30, a));
            && Accepts(cfg, s1, Knock(cfg, 30, 30, a)).Some?
            && s2.replay == Put(Replay.Empty(), Key(a), Replay.Record(c, 30))
            && s2.rate == RateLimit.Empty() && s2.lastPrune <= 30
  {
    hide Accepts, Key, Step, Init, Lookup, Target, Put, Replay.Empty, RateLimit.Empty, ClientPacket, Pass;
    var s1, e := Step(cfg, Init(0), Pass(30)), Knock(cfg, 30, 30, a);
    FirstPass(cfg);
    FreshTable(Key(a));
    StrangerAccepted(cfg, s1, 30, 30, a);
    StaysForgiven(cfg, s1, e);
    KnockRecords(cfg, s1, e);
    c := Accepts(cfg, s1, e).value;
  }

  lemma NotYetOld(ip: Ip, c: nat)
    ensures var t := Put(Replay.Empty(), ip, Replay.Record(c, 30));
            forall p :: 0 <= p < 64 ==> !Replay.Expired(t[p], 3620, REPLAY_MAX_AGE)
  {
    hide Target;
  }

  /** The pass and the packet after it. */
  lemma SecondKnock(cfg: Config, s2: State, a: SockAddr, b: SockAddr, c: nat)
    requires Key(a) != Key(b) && Home(Key(a)) == Home(Key(b)) && Shaped(s2) && s2.rate == RateLimit.Empty()
    requires s2.replay == Put(Replay.Empty(), Key(a), Replay.Record(c, 30)) && s2.lastPrune <= 30
    ensures var s3 := Step(cfg, s2, Pass(3620)); var s4 := Step(cfg, s3, Knock(cfg, 3620, 3620, b));
            && Accepts(cfg, s3, Knock(cfg, 3620, 3620, b)).Some?
            && TwoSlots(s4.replay, Key(a), Key(b), 30, 3620) && s4.rate == RateLimit.Empty() && s4.lastPrune <= 3620
  {
    hide Accepts, Key, Home, Step, Lookup, Target, Put, Replay.Empty, RateLimit.Empty, TwoSlots, ClientPacket, Pass;
    var s3, e := Step(cfg, s2, Pass(3620)), Knock(cfg, 3620, 3620, b);
    var ra := Replay.Record(c, 30);
    NotYetOld(Key(a), c);
    QuietPass(cfg, s2, 3620);
    PassTime(cfg, s2, 3620);
    SecondSlot(Key(a), Key(b), ra, ra);
    StrangerAccepted(cfg, s3, 3620, 3620, b);
    StaysForgiven(cfg, s3, e);
    KnockRecords(cfg, s3, e);
    SecondSlot(Key(a), Key(b), ra, Replay.Record(Accepts(cfg, s3, e).value, 3620));
  }

  /** The pass that sweeps the first slot, and the datagram again. */
  lemma ThirdKnock(cfg: Config, s4: State, a: SockAddr, b: SockAddr)
    requires Shaped(s4) && TwoSlots(s4.replay, Key(a), Key(b), 30, 3620)
    requires s4.rate == RateLimit.Empty() && s4.lastPrune <= 3620
    ensures Accepts(cfg, Step(cfg, s4, Pass(3636)), Knock(cfg, 3620, 3636, b)).Some?
  {
    hide Accepts, Key, Home, Step, Lookup, Target, Replay.Prune, RateLimit.Empty, TwoSlots, ClientPacket;
    SweptAtTick(cfg, s4, Pass(3636));
    StaysForgiven(cfg, s4, Pass(3636));
    SweptFirst(s4.replay, Key(a), Key(b));
    StrangerAccepted(cfg, Step(cfg, s4, Pass(3636)), 3620, 3636, b);
  }

  /** The run of six events, step by step. */
  lemma RunSix(cfg: Config, es: seq<Event>)
    requires |es| == 6
    ensures var s2 := Step(cfg, Step(cfg, Init(0), es[0]), es[1]);
            var s3 := Step(cfg, s2, es[2]); var s4 := Step(cfg, s3, es[3]);
            Run(cfg, 0, es, 3) == s3 && Run(cfg, 0, es, 5) == Step(cfg, s4, es[4])
  {
    hide Step, Init;
    RunStep(cfg, es, 0);
    RunStep(cfg, es, 1);
    RunStep(cfg, es, 2);
    RunStep(cfg, es, 3);
    RunStep(cfg, es, 4);
  }

  /** Two hosts with one home slot: the daemon accepts one and the same datagram of the second host
      twice, because the sweep in between frees the slot on the way to its entry. */
  lemma TokenAcceptedTwice(cfg: Config, a: SockAddr, b: SockAddr)
    requires Key(a) != Key(b) && Home(Key(a)) == Home(Key(b))
    ensures var es := ReplayEvents(cfg, a, b);
            ClocksRun(0, 0, es) && AcceptedTwice(cfg, es, 3, 5)
  {
    hide Accepts, Key, Home, Step, Run, Init, ClocksRun;
    hide Put, TwoSlots, ClientPacket, RateLimit.Empty, Replay.Empty, Pass;
    ReplayClocks(cfg, a, b);
    RunSix(cfg, ReplayEvents(cfg, a, b));
    var s2 := Step(cfg, Step(cfg, Init(0), Pass(30)), Knock(cfg, 30, 30, a));
    var c := FirstKnock(cfg, a);
    SecondKnock(cfg, s2, a, b, c);
    ThirdKnock(cfg, Step(cfg, Step(cfg, s2, Pass(3620)), Knock(cfg, 3620, 3620, b)), a, b);
  }

  lemma KnockRecords(cfg: Config, s: State, e: Event)
    requires Shaped(s) && e.Packet? && Accepts(cfg, s, e).Some?
    ensures Step(cfg, s, e).replay == Put(s.replay, Key(e.src), Replay.Record(Accepts(cfg, s, e).value, e.seenAt))
    ensures Step(cfg, s, e).lastPrune == s.lastPrune
  {
    hide HandlePacket, Accepts, Key, Put, Target;
    AntiReplay.PacketTable(cfg, s, e);
    Lifetime.LastPruneKept(cfg, s, e);
  }

  lemma SweptAtTick(cfg: Config, s: State, e: Event)
    requires Shaped(s) && e.Tick? && s.lastPrune + PRUNE_INTERVAL <= e.mono
    ensures Step(cfg, s, e).replay == Replay.Prune(s.replay, e.now, REPLAY_MAX_AGE)
  {
    hide PruneCheck, Replay.Prune;
    AntiReplay.TickTable(cfg, s, e);
  }

  /** There are such hosts. */
  lemma SomeTokenAcceptedTwice(cfg: Config)
    ensures exists es: seq<Event>, i, j :: ClocksRun(0, 0, es) && AcceptedTwice(cfg, es, i, j)
  {
    hide AcceptedTwice, ClocksRun, Key, Home;
    Replay.SharedHome();
    var a: SockAddr, b: SockAddr :| Key(a) != Key(b) && Home(Key(a)) == Home(Key(b));
    TokenAcceptedTwice(cfg, a, b);
  }

  // ---- one token, two hosts ---------------------------------------------------------------------

  /** Two hosts send the same datagram in the same second. */
  function TwoHostEvents(cfg: Config, a: SockAddr, b: SockAddr): seq<Event> {
    [Pass(30), Knock(cfg, 30, 30, a), Knock(cfg, 30, 30, b)]
  }

  lemma TwoHostClocks(cfg: Config, a: SockAddr, b: SockAddr)
    ensures ClocksRun(0, 0, TwoHostEvents(cfg, a, b))
  {
    hide ClientPacket;
  }

  /** A table with one entry has room for, and no knowledge of, any other address. */
  lemma SecondFits(a: Ip, b: Ip, r: Replay.Record)
    requires a != b
    ensures var t := Put(Replay.Empty(), a, r); Lookup(t, b).None? && Target(t, b).Some?
  {
    hide Home;
    ProbeIs(Replay.Empty(), a, 0);
    var t := Put(Replay.Empty(), a, r);
    assert Pos(b, 0) != Pos(b, 1);
    if t[Pos(b, 0)].used {
      ProbeIs(t, b, 1);
    } else {
      ProbeIs(t, b, 0);
    }
  }

  /** A token that was accepted opens the port to any other host that sends the same bytes: the daemon
      remembers counters by source address. */
  lemma TokenServesTwoHosts(cfg: Config, a: SockAddr, b: SockAddr)
    requires HostOf(a) != HostOf(b)
    ensures var es := TwoHostEvents(cfg, a, b);
            && ClocksRun(0, 0, es) && es[1].data == es[2].data
            && Accepts(cfg, Run(cfg, 0, es, 1), es[1]).Some? && Accepts(cfg, Run(cfg, 0, es, 2), es[2]).Some?
  {
    hide Accepts, Key, HostOf, Step, Run, Init, ClocksRun, Lookup, Target, Put, ClientPacket, RateLimit.Empty;
    hide Replay.Empty, Pass;
    KeyNamesHost(a, b);
    TwoHostClocks(cfg, a, b);
    RunTwo(cfg, TwoHostEvents(cfg, a, b));
    var c := FirstKnock(cfg, a);
    SecondFits(Key(a), Key(b), Replay.Record(c, 30));
    StrangerAccepted(cfg, Step(cfg, Step(cfg, Init(0), Pass(30)), Knock(cfg, 30, 30, a)), 30, 30, b);
  }

  // ---- a block lifted by another host's success -----------------------------------------------

  /** In one pass host a is refused once, host b as often as it takes, and then a knocks. */
  function LiftEvents(cfg: Config, a: SockAddr, b: SockAddr): (es: seq<Event>)
    ensures |es| == cfg.rate.maxFails + 3
  {
    [Pass(30), Junk(a)] + seq(cfg.rate.maxFails, _ => Junk(b)) + [Knock(cfg, 30, 30, a)]
  }

  lemma UnknownAllowed(t: RateLimit.Slots, ip: Ip, now: nat)
    requires |t| == 64 && Lookup(t, ip).None?
    ensures RateLimit.Allowed(t, ip, now)
  {
    hide Find;
  }

  /** A datagram that holds no token but the letter x. */
  function Junk(src: SockAddr): Event { Packet(30, 30, [0x78], src, true) }

  lemma JunkRefused(cfg: Config, s: State, src: SockAddr)
    requires Shaped(s)
    ensures Accepts(cfg, s, Junk(src)).None?
  {
    hide Auth.Validate, Key, RateLimit.Allowed;
  }

  lemma LiftClocks(cfg: Config, a: SockAddr, b: SockAddr)
    ensures ClocksRun(0, 0, LiftEvents(cfg, a, b))
  {
    hide ClientPacket;
  }

  /** Counting a failure of one address leaves every slot of another as it is. */
  lemma FailKeepsSlot(t: RateLimit.Slots, ip: Ip, now: nat, cfg: RateLimit.Config, p: nat)
    requires |t| == 64 && p < 64 && t[p].used
    ensures var s := RateLimit.Fail(t, ip, now, cfg)[p]; s.used && s.ip == t[p].ip && (t[p].ip != ip ==> s == t[p])
  {
    hide Home;
  }

  lemma JunkKeepsSlot(cfg: Config, s: State, src: SockAddr, p: nat)
    requires Shaped(s) && p < 64 && s.rate[p].used
    ensures var s' := Step(cfg, s, Junk(src));
            && s'.rate[p].used && s'.rate[p].ip == s.rate[p].ip
            && (s.rate[p].ip != Key(src) ==> s'.rate[p] == s.rate[p])
            && s'.replay == s.replay
  {
    hide Accepts, Key, RateLimit.Allowed, RateLimit.Fail, HandlePacket;
    var e := Junk(src);
    JunkRefused(cfg, s, src);
    AntiReplay.PacketTable(cfg, s, e);
    DaemonRates.StepRate(cfg, s, e);
    FailKeepsSlot(s.rate, Key(src), 30, cfg.rate, p);
  }

  /** The first slot from home on is a's, the second b's. */
  ghost predicate Queued(t: RateLimit.Slots, a: Ip, b: Ip)
    requires |t| == 64
  {
    && t[Pos(a, 0)] == Slot(true, a, RateLimit.FirstEntry(30))
    && t[Pos(a, 1)].used && t[Pos(a, 1)].ip == b
  }

  lemma QueuedMeans(t: RateLimit.Slots, a: Ip, b: Ip)
    requires |t| == 64 && a != b && Home(a) == Home(b) && Queued(t, a, b)
    ensures R.OnPath(t, a, b) && RateLimit.Allowed(t, a, 30)
  {
    hide Home;
    assert Pos(b, 0) == Pos(a, 0) && Pos(b, 1) == Pos(a, 1) && Pos(a, 0) != Pos(a, 1);
    ProbeIs(t, a, 0);
    ProbeIs(t, b, 1);
    R.OffsetOf(b, 0);
    R.OffsetOf(b, 1);
  }

  /** The first failure of a on the empty table, and the first of b behind it. */
  lemma FirstTwo(cfg: RateLimit.Config, a: Ip, b: Ip)
    requires a != b && Home(a) == Home(b)
    ensures var t1 := RateLimit.Fail(RateLimit.Empty(), a, 30, cfg);
            && Intact(t1, b) && Lookup(t1, b).None? && Target(t1, b).Some? && t1[Pos(a, 0)].used
            && Queued(RateLimit.Fail(t1, b, 30, cfg), a, b)
  {
    hide Home;
    var t0 := RateLimit.Empty();
    ProbeIs(t0, a, 0);
    var t1 := RateLimit.Fail(t0, a, 30, cfg);
    assert Pos(b, 0) == Pos(a, 0) && Pos(b, 1) == Pos(a, 1) && Pos(a, 0) != Pos(a, 1);
    ProbeIs(t1, b, 1);
    assert Intact(t0, b);
    PutIntact(t0, a, RateLimit.FirstEntry(30), b);
  }

  lemma JunkFails(cfg: Config, s: State, src: SockAddr)
    requires Shaped(s) && RateLimit.Allowed(s.rate, Key(src), 30)
    ensures Step(cfg, s, Junk(src)).rate == RateLimit.Fail(s.rate, Key(src), 30, cfg.rate)
    ensures Step(cfg, s, Junk(src)).replay == s.replay
  {
    hide Accepts, Key, RateLimit.Allowed, RateLimit.Fail, HandlePacket;
    JunkRefused(cfg, s, src);
    AntiReplay.PacketTable(cfg, s, Junk(src));
    DaemonRates.StepRate(cfg, s, Junk(src));
  }

  lemma LiftOrder(cfg: Config, a: SockAddr, b: SockAddr)
    requires cfg.rate.maxFails >= 1
    ensures var es := LiftEvents(cfg, a, b);
            && es[0] == Pass(30) && es[1] == Junk(a) && es[2] == Junk(b)
            && es[cfg.rate.maxFails + 2] == Knock(cfg, 30, 30, a)
  {
    hide Knock;
  }

  /** The first two packets. */
  lemma TwoFailures(cfg: Config, s: State, a: SockAddr, b: SockAddr)
    requires Key(a) != Key(b) && Home(Key(a)) == Home(Key(b))
    requires Shaped(s) && s.rate == RateLimit.Empty() && s.replay == Replay.Empty()
    ensures var s1 := Step(cfg, s, Junk(a)); var s2 := Step(cfg, s1, Junk(b));
            && Intact(s1.rate, Key(b)) && Lookup(s1.rate, Key(b)).None? && Target(s1.rate, Key(b)).Some?
            && Queued(s2.rate, Key(a), Key(b)) && s2.replay == Replay.Empty()
  {
    hide Step, Key, Home, Intact, Lookup, Target, RateLimit.Fail, RateLimit.Empty, RateLimit.Allowed, Replay.Empty;
    hide Queued, Junk;
    EmptyAllows(Key(a), 30);
    FirstTwo(cfg.rate, Key(a), Key(b));
    JunkFails(cfg, s, a);
    var s1 := Step(cfg, s, Junk(a));
    UnknownAllowed(s1.rate, Key(b), 30);
    JunkFails(cfg, s1, b);
  }

  lemma LiftStart(cfg: Config, a: SockAddr, b: SockAddr)
    requires Key(a) != Key(b) && Home(Key(a)) == Home(Key(b)) && cfg.rate.maxFails >= 1
    ensures var es := LiftEvents(cfg, a, b);
            var t2 := Run(cfg, 0, es, 2).rate;
            && Intact(t2, Key(b)) && Lookup(t2, Key(b)).None? && Target(t2, Key(b)).Some?
            && Queued(Run(cfg, 0, es, 3).rate, Key(a), Key(b)) && Run(cfg, 0, es, 3).replay == Replay.Empty()
  {
    hide Run, Step, Init, Key, Home, Intact, Lookup, Target;
    hide Replay.Empty, RateLimit.Empty, Queued, LiftEvents, Junk, Pass;
    var es := LiftEvents(cfg, a, b);
    LiftOrder(cfg, a, b);
    RunThree(cfg, es);
    FirstPass(cfg);
    TwoFailures(cfg, Step(cfg, Init(0), Pass(30)), a, b);
  }

  lemma RunTwo(cfg: Config, es: seq<Event>)
    requires |es| >= 2
    ensures var s1 := Step(cfg, Init(0), es[0]); Run(cfg, 0, es, 1) == s1 && Run(cfg, 0, es, 2) == Step(cfg, s1, es[1])
  {
    hide Step, Init;
    RunStep(cfg, es, 0);
    RunStep(cfg, es, 1);
  }

  lemma RunThree(cfg: Config, es: seq<Event>)
    requires |es| >= 3
    ensures var s2 := Step(cfg, Step(cfg, Init(0), es[0]), es[1]);
            Run(cfg, 0, es, 2) == s2 && Run(cfg, 0, es, 3) == Step(cfg, s2, es[2])
  {
    hide Step, Init;
    RunTwo(cfg, es);
    RunStep(cfg, es, 2);
  }

  lemma {:induction false} LiftQueued(cfg: Config, a: SockAddr, b: SockAddr, n: nat)
    requires Key(a) != Key(b) && Home(Key(a)) == Home(Key(b)) && 3 <= n <= cfg.rate.maxFails + 2
    ensures var s := Run(cfg, 0, LiftEvents(cfg, a, b), n); Queued(s.rate, Key(a), Key(b)) && s.replay == Replay.Empty()
  {
    hide Run, Step, Key, Home, Intact, Target, RateLimit.Fail, Replay.Empty, ClientPacket;
    var es := LiftEvents(cfg, a, b);
    if n == 3 {
      LiftStart(cfg, a, b);
    } else {
      LiftQueued(cfg, a, b, n - 1);
      RunStep(cfg, es, n - 1);
      assert es[n - 1] == Junk(b);
      JunkKeepsSlot(cfg, Run(cfg, 0, es, n - 1), b, Pos(Key(a), 0));
      JunkKeepsSlot(cfg, Run(cfg, 0, es, n - 1), b, Pos(Key(a), 1));
    }
  }

  lemma {:induction false} LiftRefusals(cfg: Config, a: SockAddr, b: SockAddr, n: nat)
    requires 2 <= n <= cfg.rate.maxFails + 2
    ensures DaemonRates.Refusals(cfg, 0, LiftEvents(cfg, a, b), 2, n, Key(b)) == n - 2
    ensures DaemonRates.LeftAlone(cfg, 0, LiftEvents(cfg, a, b), 2, n, Key(b))
  {
    hide Run, Accepts, Key, ClientPacket, R.OnPath;
    if n > 2 {
      LiftRefusals(cfg, a, b, n - 1);
      var es := LiftEvents(cfg, a, b);
      assert es[n - 1] == Junk(b);
      JunkRefused(cfg, Run(cfg, 0, es, n - 1), b);
    }
  }

  lemma LiftBlocked(cfg: Config, a: SockAddr, b: SockAddr)
    requires Key(a) != Key(b) && Home(Key(a)) == Home(Key(b))
    requires 2 <= cfg.rate.maxFails < TWO32 && cfg.rate.minBlock >= 1
    ensures var s := Run(cfg, 0, LiftEvents(cfg, a, b), cfg.rate.maxFails + 2);
            !RateLimit.Allowed(s.rate, Key(b), 30) && Intact(s.rate, Key(b))
  {
    hide Run, Accepts, Key, Home, Intact, Lookup;
    hide Target, Queued, ClientPacket, RateLimit.Allowed, DaemonRates.LeftAlone;
    hide HandlePacket, DaemonRates.Refusals;
    var es, n := LiftEvents(cfg, a, b), cfg.rate.maxFails + 2;
    assert forall k :: 2 <= k < n ==> es[k] == Junk(b);
    LiftStart(cfg, a, b);
    LiftRefusals(cfg, a, b, n);
    JunkRefused(cfg, Run(cfg, 0, es, 2), b);
    JunkRefused(cfg, Run(cfg, 0, es, n - 1), b);
    DaemonRates.ThresholdBlocksHost(cfg, 0, es, 2, n, n, Junk(b));
    DaemonRates.HostEntry(cfg, 0, es, 2, n, n, Key(b));
  }

  /** Two hosts with one home slot: the daemon blocks the second, and an accepted packet of the first
      ends that block at once. */
  lemma BlockLifted(cfg: Config, a: SockAddr, b: SockAddr)
    requires Key(a) != Key(b) && Home(Key(a)) == Home(Key(b))
    requires 2 <= cfg.rate.maxFails < TWO32 && cfg.rate.minBlock >= 1
    ensures var es, n := LiftEvents(cfg, a, b), cfg.rate.maxFails + 2;
            && ClocksRun(0, 0, es)
            && !RateLimit.Allowed(Run(cfg, 0, es, n).rate, Key(b), 30)
            && RateLimit.Allowed(Run(cfg, 0, es, n + 1).rate, Key(b), 30)
  {
    hide Run, Step, Accepts, Key, Home, Intact, Lookup, Target, Queued, ClientPacket, ClocksRun, RateLimit.Allowed;
    hide R.OnPath, RateLimit.Success, Replay.Empty;
    var es, n := LiftEvents(cfg, a, b), cfg.rate.maxFails + 2;
    var s := Run(cfg, 0, es, n);
    LiftClocks(cfg, a, b);
    LiftBlocked(cfg, a, b);
    LiftQueued(cfg, a, b, n);
    QueuedMeans(s.rate, Key(a), Key(b));
    RunStep(cfg, es, n);
    assert es[n] == Knock(cfg, 30, 30, a);
    FreshTable(Key(a));
    ClientAccepted(cfg, s, es[n], 30);
    DaemonRates.StepRate(cfg, s, es[n]);
    R.SuccessLiftsBlockIff(s.rate, Key(a), Key(b), 30);
  }

  // ---- a grant lost in a full array -----------------------------------------------------------

  /** Every ninety seconds the loop passes and host a knocks. */
  function BusyEvent(cfg: Config, a: SockAddr, i: nat): Event {
    var now := 90 * (i / 2) + 90;
    if i % 2 == 0 then Tick(now, now, []) else Knock(cfg, now, now, a)
  }

  ghost predicate Busy(cfg: Config, a: SockAddr, es: seq<Event>, k: nat) {
    2 * k <= |es| && forall i :: 0 <= i < 2 * k ==> es[i] == BusyEvent(cfg, a, i)
  }

  /** k grants are tracked, all of them to host a. */
  ghost predicate Filled(cfg: Config, a: SockAddr, s: State, k: nat) {
    && Shaped(s) && k <= 256
    && (forall i :: 0 <= i < k ==>
          s.rules[i].active && s.rules[i].expiry == 90 * i + 90 + cfg.timeout && s.rules[i].addr == RuleAddr(a))
    && (forall i :: k <= i < 256 ==> !s.rules[i].active)
  }

  /** The replay table knows host a at most, in its home slot, as of the last packet at 90 * k. */
  ghost predicate KnowsOne(t: Replay.Slots, ip: Ip, k: nat) {
    && |t| == 64
    && forall p :: 0 <= p < 64 && t[p].used ==>
         p == Home(ip) && t[p].ip == ip && t[p].rec.lastSeq <= 3 * k + 1 && t[p].rec.lastSeen >= 90 * k
  }

  ghost predicate BusyState(cfg: Config, a: SockAddr, s: State, k: nat) {
    && Filled(cfg, a, s, k) && KnowsOne(s.replay, Key(a), k)
    && s.rate == RateLimit.Empty() && s.lastPrune <= 90 * k
  }

  /** A pass ninety seconds after the last packet: nothing is old enough to go. */
  lemma BusyTick(cfg: Config, a: SockAddr, s: State, k: nat)
    requires BusyState(cfg, a, s, k) && cfg.timeout >= 23220
    ensures var s' := Step(cfg, s, BusyEvent(cfg, a, 2 * k));
            && s'.rules == s.rules && s'.numRules == s.numRules && s'.replay == s.replay && s'.rate == s.rate
            && s'.lastPrune <= 90 * k + 90
  {
    hide Filled, KnowsOne, Rebuild, FoundExpired, Replay.Prune, RateLimit.Empty, Key;
    var now := 90 * k + 90;
    FilledShaped(cfg, a, s, k);
    BusyTimes(cfg, a, k);
    NothingOld(s.replay, Key(a), k);
    NothingEnded(cfg, a, s, k);
    assert Step(cfg, s, Tick(now, now, [])) == s || Step(cfg, s, Tick(now, now, [])) == s.(lastPrune := now);
  }

  lemma BusyTimes(cfg: Config, a: SockAddr, k: nat)
    ensures var now := 90 * k + 90;
            BusyEvent(cfg, a, 2 * k) == Tick(now, now, []) && BusyEvent(cfg, a, 2 * k + 1) == Knock(cfg, now, now, a)
  {
    hide Knock;
    assert 2 * k / 2 == k && (2 * k + 1) / 2 == k;
  }

  lemma NothingOld(t: Replay.Slots, ip: Ip, k: nat)
    requires KnowsOne(t, ip, k)
    ensures Replay.Prune(t, 90 * k + 90, REPLAY_MAX_AGE) == t
  {
    hide Home;
  }

  lemma NothingEnded(cfg: Config, a: SockAddr, s: State, k: nat)
    requires Filled(cfg, a, s, k) && cfg.timeout >= 23220
    ensures !FoundExpired(s.rules, s.numRules, 90 * k + 90)
  {
    hide RuleAddr;
  }

  lemma OneTarget(t: Replay.Slots, ip: Ip, k: nat, other: Ip)
    requires KnowsOne(t, ip, k)
    ensures Target(t, ip) == Some(Home(ip)) && Target(t, other).Some?
    ensures match Lookup(t, ip) case Some(r) => r.lastSeq <= 3 * k + 1 case None => true
    ensures other != ip ==> Lookup(t, other).None?
  {
    hide Home;
    ProbeIs(t, ip, 0);
    assert Pos(ip, 0) == Home(ip);
    assert Pos(other, 0) != Pos(other, 1);
    if t[Pos(other, 0)].used && ip != other {
      ProbeIs(t, other, 1);
    } else {
      ProbeIs(t, other, 0);
    }
  }

  lemma OnePut(t: Replay.Slots, ip: Ip, k: nat, c: nat)
    requires KnowsOne(t, ip, k) && c <= 3 * (k + 1) + 1
    ensures KnowsOne(Put(t, ip, Replay.Record(c, 90 * k + 90)), ip, k + 1)
  {
    hide Home, Target;
    OneTarget(t, ip, k, ip);
  }

  /** A packet of host a, accepted and tracked as long as there is room. */
  lemma BusyKnock(cfg: Config, a: SockAddr, s: State, k: nat)
    requires Filled(cfg, a, s, k) && KnowsOne(s.replay, Key(a), k) && s.rate == RateLimit.Empty()
    ensures Accepts(cfg, s, Knock(cfg, 90 * k + 90, 90 * k + 90, a)).Some?
    ensures var s' := Step(cfg, s, Knock(cfg, 90 * k + 90, 90 * k + 90, a));
            && KnowsOne(s'.replay, Key(a), k + 1) && s'.rate == RateLimit.Empty() && s'.lastPrune == s.lastPrune
            && (k < 256 ==> Filled(cfg, a, s', k + 1))
  {
    hide Accepts, Step, Key, KnowsOne, Target, Lookup, Put, RateLimit.Empty, RateLimit.Allowed, ClientPacket, Filled;
    var now := 90 * k + 90;
    var e := Knock(cfg, now, now, a);
    FilledShaped(cfg, a, s, k);
    OneTarget(s.replay, Key(a), k, Key(a));
    EmptyAllows(Key(a), now);
    ClientAccepted(cfg, s, e, now);
    StaysForgiven(cfg, s, e);
    KnockRecords(cfg, s, e);
    Lifetime.AcceptedCarriesCode(cfg, s, e);
    OnePut(s.replay, Key(a), k, Accepts(cfg, s, e).value);
    if k < 256 {
      KnockFills(cfg, a, s, k);
    }
  }

  lemma FilledShaped(cfg: Config, a: SockAddr, s: State, k: nat)
    requires Filled(cfg, a, s, k)
    ensures Shaped(s)
  {
  }

  lemma KnockFills(cfg: Config, a: SockAddr, s: State, k: nat)
    requires Filled(cfg, a, s, k) && k < 256
    requires Accepts(cfg, s, Knock(cfg, 90 * k + 90, 90 * k + 90, a)).Some?
    ensures Filled(cfg, a, Step(cfg, s, Knock(cfg, 90 * k + 90, 90 * k + 90, a)), k + 1)
  {
    hide Validated, Key, RuleAddr, ClientPacket, RateLimit.Allowed, RateLimit.Success;
    hide Track, Filled;
    var e := Knock(cfg, 90 * k + 90, 90 * k + 90, a);
    FilledShaped(cfg, a, s, k);
    if !RateLimit.Allowed(s.rate, Key(e.src), e.now) {
      BlockedIsRefused(cfg, s, e);
    }
    GrantFills(cfg, a, s, Authenticated(cfg, s, e), k);
  }

  lemma GrantFills(cfg: Config, a: SockAddr, s: State, s1: State, k: nat)
    requires Filled(cfg, a, s, k) && k < 256 && Shaped(s1) && s1.rules == s.rules && s1.numRules == s.numRules
    ensures Filled(cfg, a, Grant(cfg, s1, RuleAddr(a), 90 * k + 90 + cfg.timeout), k + 1)
  {
    hide RuleAddr;
    var f := FirstFree(s1.rules, 0);
    assert !s1.rules[k].active;
    assert f == k;
  }

  /** A pass and a packet. */
  lemma BusyPair(cfg: Config, a: SockAddr, s: State, k: nat)
    requires BusyState(cfg, a, s, k) && cfg.timeout >= 23220 && k < 256
    ensures var s1 := Step(cfg, s, BusyEvent(cfg, a, 2 * k));
            Shaped(s1) && BusyState(cfg, a, Step(cfg, s1, BusyEvent(cfg, a, 2 * k + 1)), k + 1)
  {
    hide Step, Key, KnowsOne, Filled, RateLimit.Empty, BusyEvent;
    FilledShaped(cfg, a, s, k);
    var s1 := Step(cfg, s, BusyEvent(cfg, a, 2 * k));
    BusyTick(cfg, a, s, k);
    BusyTimes(cfg, a, k);
    FilledSame(cfg, a, s, s1, k);
    BusyKnock(cfg, a, s1, k);
  }

  lemma {:induction false} BusyRun(cfg: Config, a: SockAddr, es: seq<Event>, k: nat)
    requires k <= 256 && cfg.timeout >= 23220 && Busy(cfg, a, es, k)
    ensures BusyState(cfg, a, Run(cfg, 0, es, 2 * k), k)
  {
    hide Step, Run, BusyState, BusyEvent;
    if k == 0 {
      BusyStart(cfg, a);
      RunStart(cfg, es);
    } else {
      BusyRun(cfg, a, es, k - 1);
      var n := 2 * (k - 1);
      RunStep(cfg, es, n);
      RunStep(cfg, es, n + 1);
      BusyPair(cfg, a, Run(cfg, 0, es, n), k - 1);
    }
  }

  lemma RunStart(cfg: Config, es: seq<Event>)
    ensures Run(cfg, 0, es, 0) == Init(0)
  {
  }

  lemma BusyStart(cfg: Config, a: SockAddr)
    ensures BusyState(cfg, a, Init(0), 0)
  {
  }

  lemma FilledSame(cfg: Config, a: SockAddr, s: State, s': State, k: nat)
    requires Filled(cfg, a, s, k) && s'.rules == s.rules && s'.numRules == s.numRules && s'.replay == s.replay
    requires s'.rate == s.rate
    ensures Filled(cfg, a, s', k)
  {
  }

  /** 256 grants to host a, one to host b, and a loop pass when the first of them has ended. */
  function OverflowEvents(cfg: Config, a: SockAddr, b: SockAddr, oks: seq<bool>): (es: seq<Event>)
    ensures |es| == 515
  {
    seq(513, i requires 0 <= i < 513 => BusyEvent(cfg, a, i))
    + [Knock(cfg, 23130, 23130, b), Tick(cfg.timeout + 90, cfg.timeout + 90, oks)]
  }

  lemma OverflowClocks(cfg: Config, a: SockAddr, b: SockAddr, oks: seq<bool>)
    requires cfg.timeout >= 23220
    ensures ClocksRun(0, 0, OverflowEvents(cfg, a, b, oks))
  {
    hide ClientPacket;
  }

  /** The tracking array does fill up; the next grant is in the kernel, is not tracked, and is gone with
      the first flush although it has not ended, however that flush's insertions fare. */
  lemma OverflowLosesGrant(cfg: Config, a: SockAddr, b: SockAddr, oks: seq<bool>)
    requires cfg.timeout >= 23220 && Key(a) != Key(b)
    ensures var es := OverflowEvents(cfg, a, b, oks);
            && ClocksRun(0, 0, es) && !HasRoom(Run(cfg, 0, es, 513))
            && Accepts(cfg, Run(cfg, 0, es, 513), es[513]).Some?
            && InChain(Run(cfg, 0, es, 514).chain, RuleAddr(b), 23130 + cfg.timeout)
            && es[514].now < 23130 + cfg.timeout
            && forall r :: r in Run(cfg, 0, es, 515).chain ==> r.addr == RuleAddr(a)
  {
    hide Step, Run, Key, RuleAddr, KnowsOne, Filled, Accepts, RateLimit.Empty, ClientPacket;
    hide ClocksRun, Lookup, Target, InChain, HasRoom;
    var es := OverflowEvents(cfg, a, b, oks);
    OverflowClocks(cfg, a, b, oks);
    BusyRun(cfg, a, es, 256);
    var s0, s := Run(cfg, 0, es, 512), Run(cfg, 0, es, 513);
    RunStep(cfg, es, 512);
    BusyTick(cfg, a, s0, 256);
    FilledSame(cfg, a, s0, s, 256);
    FilledUp(cfg, a, s);
    OneTarget(s.replay, Key(a), 256, Key(b));
    StrangerAccepted(cfg, s, 23130, 23130, b);
    RunStep(cfg, es, 513);
    RunStep(cfg, es, 514);
    LastKnock(cfg, a, s, es[513]);
    FlushKeepsOnly(cfg, a, Run(cfg, 0, es, 514), es[514]);
  }

  lemma FilledUp(cfg: Config, a: SockAddr, s: State)
    requires Filled(cfg, a, s, 256)
    ensures !HasRoom(s)
  {
  }

  /** A grant on a full array. */
  lemma LastKnock(cfg: Config, a: SockAddr, s: State, e: Event)
    requires Filled(cfg, a, s, 256) && e.Packet? && e.inserted && Accepts(cfg, s, e).Some?
    ensures var s' := Step(cfg, s, e);
            && Filled(cfg, a, s', 256) && s'.lastPrune == s.lastPrune
            && InChain(s'.chain, RuleAddr(e.src), e.now + cfg.timeout)
  {
    hide Validated, Key, RuleAddr, RateLimit.Allowed, RateLimit.Success, InChain;
    PacketGrows(cfg, s, e);
    if !RateLimit.Allowed(s.rate, Key(e.src), e.now) {
      BlockedIsRefused(cfg, s, e);
    }
  }

  /** Once the first grant has ended, the flush leaves rules of tracked grants only. */
  lemma FlushKeepsOnly(cfg: Config, a: SockAddr, s: State, e: Event)
    requires Filled(cfg, a, s, 256) && e.Tick? && e.now == e.mono == cfg.timeout + 90 && s.lastPrune + 5 <= e.mono
    ensures forall r :: r in Step(cfg, s, e).chain ==> r.addr == RuleAddr(a)
  {
    hide Rebuild, RuleAddr;
    var s1 := s.(lastPrune := e.mono, replay := Replay.Prune(s.replay, e.now, REPLAY_MAX_AGE));
    assert s1.numRules == 256 by { assert s.rules[255].active; }
    assert s1.rules[0].active && e.now >= s1.rules[0].expiry;
    assert FoundExpired(s1.rules, s1.numRules, e.now);
    Lifetime.RebuildKeeps(cfg, s1, 256, e.now, e.oks);
    forall r | r in Step(cfg, s, e).chain
      ensures r.addr == RuleAddr(a)
    {
      var s' := Rebuild(cfg, s1, 256, e.now, e.oks);
      var i :| 0 <= i < 256 && Lifetime.Tracks(s'.rules[i], r);
      assert s1.rules[i].addr == RuleAddr(a);
    }
  }
}
