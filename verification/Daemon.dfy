/** src/main.c as a step machine over values: the tracked-rule array, the kernel's allowed_ips
    chain and the two tables, changed by packets and by passes of the event loop. */
module Daemon {
  import opened Bytes
  import opened Addr
  import opened ProbeTable
  import Replay
  import RateLimit
  import Auth
  import Totp

  const MAX_RULES: nat := 256
  const PRUNE_INTERVAL: nat := 5
  const REPLAY_MAX_AGE: nat := 3600
  /** Six objects created by netlink_init and three rules per family by the setup. */
  const FIRST_HANDLE: nat := 12

  /** struct config; `iface` is empty when --interface is not given. */
  datatype Config = Config(secret: seq<byte>, timeout: nat, port: nat, iface: seq<byte>, rate: RateLimit.Config)

  /** struct dynamic_rule */
  datatype Rule = Rule(active: bool, handle: nat, expiry: nat, addr: SockAddr)

  /** A rule in the kernel's allowed_ips chain: the address it accepts and the interface argument it
      was built with. The kernel does not know `deadline`, the end of the grant the rule stands for. */
  datatype ChainRule = ChainRule(addr: SockAddr, iface: Option<seq<byte>>, deadline: nat)

  datatype State = State(
    rules: seq<Rule>,
    numRules: nat,
    lastPrune: nat,
    chain: seq<ChainRule>,
    nextHandle: nat,
    replay: Replay.Slots,
    rate: RateLimit.Slots
  )

  /** The array sizes, and num_rules as a bound on the occupied slots. */
  ghost predicate Shaped(s: State) {
    && |s.rules| == MAX_RULES && s.numRules <= MAX_RULES && |s.replay| == 64 && |s.rate| == 64
    && forall i :: s.numRules <= i < MAX_RULES ==> !s.rules[i].active
  }

  const NO_RULE: Rule := Rule(false, 0, 0, V4(Zeros(4), 0))

  /** The state daemon_setup leaves behind at monotonic time `mono`. */
  function Init(mono: nat): (s: State)
    ensures Shaped(s)
  {
    State(seq(256, _ => NO_RULE), 0, mono, [], FIRST_HANDLE, Replay.Empty(), RateLimit.Empty())
  }

  // ---- rule_track -------------------------------------------------------------------------

  /** The first free slot from i on; MAX_RULES when there is none. */
  function FirstFree(rules: seq<Rule>, i: nat): (f: nat)
    requires i <= |rules|
    ensures i <= f <= |rules|
    ensures f < |rules| ==> !rules[f].active
    ensures forall j :: i <= j < f ==> rules[j].active
    decreases |rules| - i
  {
    if i == |rules| || !rules[i].active then i else FirstFree(rules, i + 1)
  }

  /** rule_track: first fit, and nothing at all when every slot is taken. */
  function Track(s: State, handle: nat, expiry: nat, addr: SockAddr): (s': State)
    requires Shaped(s)
    ensures Shaped(s')
  {
    var f := FirstFree(s.rules, 0);
    if f == |s.rules| then s
    else
      s.(rules := s.rules[f := Rule(true, handle, expiry, addr)],
         numRules := if f >= s.numRules then f + 1 else s.numRules)
  }

  // ---- rule_prune -------------------------------------------------------------------------

  predicate FoundExpired(rules: seq<Rule>, n: nat, now: nat)
    requires n <= |rules|
  {
    exists i :: 0 <= i < n && rules[i].active && now >= rules[i].expiry
  }

  /** Does the kernel take the re-insertion of slot i? */
  predicate Takes(oks: seq<bool>, i: nat) { i < |oks| && oks[i] }

  /** The rebuild loop of rule_prune over the first n slots, onto a flushed chain. */
  function Rebuild(cfg: Config, s: State, n: nat, now: nat, oks: seq<bool>): (s': State)
    requires Shaped(s) && n <= s.numRules
    ensures Shaped(s') && s'.numRules == s.numRules
    ensures forall i :: n <= i < MAX_RULES ==> s'.rules[i] == s.rules[i]
  {
    if n == 0 then s.(chain := [])
    else
      var r := Rebuild(cfg, s, n - 1, now, oks);
      var rule := r.rules[n - 1];
      if !rule.active then r
      else if now < rule.expiry then
        if Takes(oks, n - 1) then
          r.(rules := r.rules[n - 1 := rule.(handle := r.nextHandle)], nextHandle := r.nextHandle + 1,
             chain := r.chain + [ChainRule(rule.addr, Some(cfg.iface), rule.expiry)])
        else r
      else r.(rules := r.rules[n - 1 := rule.(active := false)])
  }

  function PruneRules(cfg: Config, s: State, now: nat, oks: seq<bool>): (s': State)
    requires Shaped(s)
    ensures Shaped(s')
  {
    if FoundExpired(s.rules, s.numRules, now) then Rebuild(cfg, s, s.numRules, now, oks) else s
  }

  // ---- events -----------------------------------------------------------------------------

  /** A datagram handled at wall time `now` (auth_record_seq reads the clock again, at `seenAt`;
      `inserted` is whether the kernel takes the new rule), or the head of a loop pass. */
  datatype Event =
    | Packet(now: nat, seenAt: nat, data: seq<byte>, src: SockAddr, inserted: bool)
    | Tick(now: nat, mono: nat, oks: seq<bool>)

  /** The parameters handle_one_packet fixes. */
  function Window(now: nat): Totp.Params { Totp.Params(now, 6, 30, 1, 1) }

  /** What auth_validate makes of a packet, if the packet gets that far. */
  function Validated(cfg: Config, s: State, e: Event): (r: (Option<nat>, Replay.Slots))
    requires Shaped(s) && e.Packet?
    ensures |r.1| == 64
  {
    if !RateLimit.Allowed(s.rate, Key(e.src), e.now) then (None, s.replay)
    else
      match Auth.Parse(e.data)
      case None => (None, s.replay)
      case Some(token) => Auth.Validate(s.replay, cfg.secret, token, Window(e.now), Key(e.src), e.seenAt)
  }

  /** The counter the packet is accepted for, if it is. */
  function Accepts(cfg: Config, s: State, e: Event): Option<nat>
    requires Shaped(s)
  {
    if e.Packet? then Validated(cfg, s, e).0 else None
  }

  /** Insert a rule and track it. */
  function Grant(cfg: Config, s: State, addr: SockAddr, deadline: nat): (s': State)
    requires Shaped(s)
    ensures Shaped(s')
  {
    var iface := if cfg.iface != [] then Some(cfg.iface) else None;
    var s1 := s.(chain := s.chain + [ChainRule(addr, iface, deadline)], nextHandle := s.nextHandle + 1);
    Track(s1, s.nextHandle, deadline, addr)
  }

  /** The state once a packet is accepted, before its rule is inserted. */
  function Authenticated(cfg: Config, s: State, e: Event): (s': State)
    requires Shaped(s) && e.Packet?
    ensures Shaped(s')
  {
    s.(replay := Validated(cfg, s, e).1, rate := RateLimit.Success(s.rate, Key(e.src)))
  }

  /** handle_one_packet */
  function HandlePacket(cfg: Config, s: State, e: Event): (s': State)
    requires Shaped(s) && e.Packet?
    ensures Shaped(s')
  {
    if !RateLimit.Allowed(s.rate, Key(e.src), e.now) then s
    else if Validated(cfg, s, e).0.None? then
      s.(replay := Validated(cfg, s, e).1, rate := RateLimit.Fail(s.rate, Key(e.src), e.now, cfg.rate))
    else
      var s1 := Authenticated(cfg, s, e);
      if e.inserted then Grant(cfg, s1, RuleAddr(e.src), e.now + cfg.timeout) else s1
  }

  /** The prune check at the head of daemon_process. */
  function PruneCheck(cfg: Config, s: State, e: Event): (s': State)
    requires Shaped(s) && e.Tick?
    ensures Shaped(s')
  {
    if e.mono - s.lastPrune >= PRUNE_INTERVAL then
      PruneRules(cfg, s.(lastPrune := e.mono, replay := Replay.Prune(s.replay, e.now, REPLAY_MAX_AGE)), e.now, e.oks)
    else s
  }

  function Step(cfg: Config, s: State, e: Event): (s': State)
    requires Shaped(s)
    ensures Shaped(s')
  {
    if e.Packet? then HandlePacket(cfg, s, e) else PruneCheck(cfg, s, e)
  }

  /** The state after the first n events of a run that starts at monotonic time `mono`. */
  function Run(cfg: Config, mono: nat, es: seq<Event>, n: nat): (s: State)
    requires n <= |es|
    ensures Shaped(s)
  {
    if n == 0 then Init(mono) else Step(cfg, Run(cfg, mono, es, n - 1), es[n - 1])
  }

  // ---- the clocks ---------------------------------------------------------------------------

  function End(e: Event): nat { if e.Packet? then e.seenAt else e.now }

  /** Wall and monotonic clock differ by a constant and never go backward. */
  ghost predicate ClocksRun(mono: nat, offset: nat, es: seq<Event>) {
    && (forall k :: 0 <= k < |es| ==> mono + offset <= es[k].now <= End(es[k]))
    && (forall k :: 0 <= k < |es| && es[k].Tick? ==> es[k].now == es[k].mono + offset)
    && (forall j, k :: 0 <= j < k < |es| ==> End(es[j]) <= es[k].now)
  }
}
