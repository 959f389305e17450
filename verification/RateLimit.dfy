/** src/ratelimit.c: the failure table, its exponential backoff, and what a block means. */
module RateLimit {
  import opened Bytes
  import opened Addr
  import opened ProbeTable

  datatype Config = Config(minBlock: nat, maxBlock: nat, maxFails: nat, window: nat)

  datatype Entry = Entry(failCount: nat, firstFail: nat, blockUntil: nat, blockDuration: nat)

  type Slots = seq<Slot<Entry>>

  /** rate_limit_reset */
  function Empty(): (t: Slots)
    ensures |t| == 64 && AllIntact(t) && forall p :: 0 <= p < 64 ==> !t[p].used
  {
    seq(64, _ => Slot(false, Ip(0, Zeros(16)), Entry(0, 0, 0, 0)))
  }

  /** rate_limit_check: is a packet from `ip` let through at `now`? */
  predicate Allowed(t: Slots, ip: Ip, now: nat)
    requires |t| == 64
  {
    match Lookup(t, ip)
    case Some(e) => e.blockUntil <= now
    case None => true
  }

  /** calc_block_duration, in 32-bit arithmetic. */
  function NextDuration(current: nat, cfg: Config): nat {
    if current == 0 then cfg.minBlock
    else
      var next := current * 2 % TWO32;
      if next > cfg.maxBlock then cfg.maxBlock else next
  }

  /** What a failure does to an entry that is already there. */
  function FailEntry(e: Entry, now: nat, cfg: Config): Entry {
    if now - e.firstFail > cfg.window then e.(failCount := 1, firstFail := now)
    else
      var count := (e.failCount + 1) % TWO32;
      if count >= cfg.maxFails && now >= e.blockUntil then
        var d := NextDuration(e.blockDuration, cfg);
        e.(failCount := count, blockDuration := d, blockUntil := now + d)
      else e.(failCount := count)
  }

  function FirstEntry(now: nat): Entry { Entry(1, now, 0, 0) }

  /** rate_limit_fail: a new address on a full path is not recorded. */
  function Fail(t: Slots, ip: Ip, now: nat, cfg: Config): (t': Slots)
    requires |t| == 64
    ensures |t'| == 64
  {
    Put(t, ip, match Lookup(t, ip) case Some(e) => FailEntry(e, now, cfg) case None => FirstEntry(now))
  }

  /** rate_limit_success */
  function Success(t: Slots, ip: Ip): (t': Slots)
    requires |t| == 64
    ensures Frees(t, t')
  {
    match Find(t, ip)
    case Some(p) => t[p := t[p].(used := false)]
    case None => t
  }

  /** g_table and the functions that work on it. */
  class RateTable {
    const slots: array<Slot<Entry>>

    ghost predicate Valid() {
      slots.Length == 64
    }

    constructor ()
      ensures Valid() && fresh(slots) && slots[..] == Empty()
    {
      slots := new Slot<Entry>[64](_ => Slot(false, Ip(0, Zeros(16)), Entry(0, 0, 0, 0)));
    }

    method Check(ip: Ip, now: nat) returns (allowed: bool)
      requires Valid()
      ensures allowed == Allowed(slots[..], ip, now)
    {
      hide Home;
      var idx := Home(ip);
      for i := 0 to 64
        invariant Probe(slots[..], ip, 0) == Probe(slots[..], ip, i)
      {
        var pos := (idx + i) % 64;
        assert pos == Pos(ip, i);
        if !slots[pos].used {
          return true;
        }
        if slots[pos].ip == ip {
          return !(now < slots[pos].rec.blockUntil);
        }
      }
      return true;
    }

    /** The body of the ip_eq branch of rate_limit_fail. */
    method Count(pos: nat, now: nat, cfg: Config)
      requires Valid() && pos < 64
      modifies slots
      ensures slots[..] == old(slots[..])[pos := old(slots[pos]).(rec := FailEntry(old(slots[pos]).rec, now, cfg))]
    {
      var e := slots[pos].rec;
      if now - e.firstFail > cfg.window {
        e := e.(failCount := 1);
        e := e.(firstFail := now);
      } else {
        e := e.(failCount := (e.failCount + 1) % TWO32);
        if e.failCount >= cfg.maxFails && now >= e.blockUntil {
          e := e.(blockDuration := NextDuration(e.blockDuration, cfg));
          e := e.(blockUntil := now + e.blockDuration);
        }
      }
      slots[pos] := slots[pos].(rec := e);
    }

    method RecordFailure(ip: Ip, now: nat, cfg: Config)
      requires Valid()
      modifies slots
      ensures slots[..] == Fail(old(slots[..]), ip, now, cfg)
    {
      hide Home, FailEntry, Probe;
      var idx := Home(ip);
      var firstEmpty := 64;
      var i := 0;
      while i < 64
        invariant 0 <= i <= 64 && firstEmpty == 64 && slots[..] == old(slots[..])
        invariant Probe(slots[..], ip, 0) == Probe(slots[..], ip, i)
      {
        var pos := (idx + i) % 64;
        assert pos == Pos(ip, i);
        ProbeStep(slots[..], ip, i);
        if !slots[pos].used {
          if firstEmpty >= 64 {
            firstEmpty := pos;
          }
          break;
        }
        if slots[pos].ip == ip {
          Count(pos, now, cfg);
          return;
        }
        i := i + 1;
      }
      ProbeEnd(slots[..], ip);
      if firstEmpty < 64 {
        slots[firstEmpty] := Slot(true, ip, FirstEntry(now));
      }
    }

    method Forgive(ip: Ip)
      requires Valid()
      modifies slots
      ensures slots[..] == Success(old(slots[..]), ip)
    {
      hide Home;
      var idx := Home(ip);
      for i := 0 to 64
        invariant slots[..] == old(slots[..])
        invariant Probe(slots[..], ip, 0) == Probe(slots[..], ip, i)
      {
        var pos := (idx + i) % 64;
        assert pos == Pos(ip, i);
        if !slots[pos].used {
          return;
        }
        if slots[pos].ip == ip {
          slots[pos] := slots[pos].(used := false);
          return;
        }
      }
    }
  }
}
