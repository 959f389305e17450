/** What the rate limiter guarantees over whole runs: blocks are earned, the backoff has a
    closed form, and enough failures do block. */
module RateLimitRuns {
  import opened Bytes
  import opened Addr
  import opened ProbeTable
  import opened RateLimit

  // ---- no unjustified block ---------------------------------------------------------------

  datatype Op = Failed(ip: Ip, now: nat) | Succeeded(ip: Ip)

  function Step(cfg: Config, t: Slots, op: Op): (t': Slots)
    requires |t| == 64
    ensures |t'| == 64
  {
    match op
    case Failed(ip, now) => Fail(t, ip, now, cfg)
    case Succeeded(ip) => Success(t, ip)
  }

  /** The table after the first n operations on `start`. */
  function Run(cfg: Config, start: Slots, ops: seq<Op>, n: nat): (t: Slots)
    requires n <= |ops| && |start| == 64
    ensures |t| == 64
  {
    if n == 0 then start else Step(cfg, Run(cfg, start, ops, n - 1), ops[n - 1])
  }

  ghost predicate ClockRuns(ops: seq<Op>) {
    forall i, j :: 0 <= i < j < |ops| && ops[i].Failed? && ops[j].Failed? ==> ops[i].now <= ops[j].now
  }

  /** How many of the first n operations are failures of `ip` no earlier than `from`. */
  ghost function Failures(ops: seq<Op>, n: nat, ip: Ip, from: nat): nat
    requires n <= |ops|
  {
    if n == 0 then 0
    else
      var op := ops[n - 1];
      Failures(ops, n - 1, ip, from) + if op.Failed? && op.ip == ip && op.now >= from then 1 else 0
  }

  /** The m-th operation is a failure of `ip`, and with it at least maxFails failures of that
      same address lie inside one window that it closes. */
  ghost predicate Earned(cfg: Config, ops: seq<Op>, m: nat, ip: Ip, from: nat) {
    && 1 <= m <= |ops|
    && ops[m - 1].Failed? && ops[m - 1].ip == ip
    && ops[m - 1].now <= from + cfg.window
    && Failures(ops, m, ip, from) >= cfg.maxFails
  }

  /** Among the first n operations, `ip` earned k blocks one after the other, each of the length that is
      due for it and none begun before the one before it was over; the last of them ends at `until`. */
  ghost predicate Series(cfg: Config, ops: seq<Op>, n: nat, ip: Ip, k: nat, until: nat)
    decreases k
  {
    if k == 0 then until == 0
    else
      exists p: nat, from: nat, before: nat ::
        p < n && Begins(cfg, ops, p, ip, k, from, before, until) && Series(cfg, ops, p, ip, k - 1, before)
  }

  /** Operation p begins a k-th block that ends at `until`, earned since `from`; the one before ended at `before`. */
  ghost predicate Begins(cfg: Config, ops: seq<Op>, p: nat, ip: Ip, k: nat, from: nat, before: nat, until: nat) {
    Earned(cfg, ops, p + 1, ip, from) && before <= ops[p].now && until == ops[p].now + Duration(cfg, k)
  }

  /** The entry's duration and end are those of the last block of such a series. */
  ghost predicate Deserved(cfg: Config, ops: seq<Op>, n: nat, ip: Ip, e: Entry) {
    exists k: nat :: e.blockDuration == Duration(cfg, k) && Series(cfg, ops, n, ip, k, e.blockUntil)
  }

  /** What every occupied slot knows about the past. */
  ghost predicate Backed(cfg: Config, ops: seq<Op>, n: nat, ip: Ip, e: Entry)
    requires n <= |ops|
  {
    && (exists k :: 0 <= k < n && ops[k].Failed? && ops[k].now == e.firstFail)
    && e.failCount <= Failures(ops, n, ip, e.firstFail)
    && Deserved(cfg, ops, n, ip, e)
  }

  ghost predicate AllBacked(cfg: Config, ops: seq<Op>, n: nat, t: Slots)
    requires n <= |ops| && |t| == 64
  {
    forall p :: 0 <= p < 64 && t[p].used ==> Backed(cfg, ops, n, t[p].ip, t[p].rec)
  }

  lemma BackedLater(cfg: Config, ops: seq<Op>, n: nat, ip: Ip, e: Entry)
    requires n < |ops| && Backed(cfg, ops, n, ip, e)
    ensures Backed(cfg, ops, n + 1, ip, e)
  {
    hide Earned, Duration;
    var k: nat :| e.blockDuration == Duration(cfg, k) && Series(cfg, ops, n, ip, k, e.blockUntil);
    SeriesLater(cfg, ops, n, n + 1, ip, k, e.blockUntil);
  }

  lemma SeriesLater(cfg: Config, ops: seq<Op>, n: nat, n': nat, ip: Ip, k: nat, until: nat)
    requires Series(cfg, ops, n, ip, k, until) && n <= n'
    ensures Series(cfg, ops, n', ip, k, until)
  {
    hide Begins;
  }

  /** One more block, begun when the last one was over. */
  lemma SeriesNext(cfg: Config, ops: seq<Op>, n: nat, ip: Ip, k: nat, before: nat, from: nat)
    requires n < |ops| && Series(cfg, ops, n, ip, k, before)
    requires Earned(cfg, ops, n + 1, ip, from) && before <= ops[n].now
    ensures Series(cfg, ops, n + 1, ip, k + 1, ops[n].now + Duration(cfg, k + 1))
  {
    hide Duration;
    assert Begins(cfg, ops, n, ip, k + 1, from, before, ops[n].now + Duration(cfg, k + 1));
  }

  lemma FailureBacked(cfg: Config, ops: seq<Op>, n: nat, e: Entry)
    requires n < |ops| && ops[n].Failed? && ClockRuns(ops) && Backed(cfg, ops, n, ops[n].ip, e)
    ensures Backed(cfg, ops, n + 1, ops[n].ip, FailEntry(e, ops[n].now, cfg))
  {
    hide Series, NextDuration;
    var Failed(ip, now) := ops[n];
    var e' := FailEntry(e, now, cfg);
    BackedLater(cfg, ops, n, ip, e);
    if now - e.firstFail > cfg.window {
      assert ops[n].now == e'.firstFail;
    } else {
      assert Failures(ops, n + 1, ip, e.firstFail) == Failures(ops, n, ip, e.firstFail) + 1;
      if Blocks(e, now, cfg) {
        assert Earned(cfg, ops, n + 1, ip, e.firstFail);
        var k: nat :| e.blockDuration == Duration(cfg, k) && Series(cfg, ops, n, ip, k, e.blockUntil);
        SeriesNext(cfg, ops, n, ip, k, e.blockUntil, e.firstFail);
        assert e'.blockDuration == Duration(cfg, k + 1);
      }
    }
    assert Deserved(cfg, ops, n + 1, ip, e');
  }

  lemma {:induction false} RunBacked(cfg: Config, ops: seq<Op>, n: nat)
    requires n <= |ops| && ClockRuns(ops)
    ensures AllBacked(cfg, ops, n, Run(cfg, Empty(), ops, n))
  {
    hide Backed, Step;
    if n > 0 {
      RunBacked(cfg, ops, n - 1);
      var t, t' := Run(cfg, Empty(), ops, n - 1), Run(cfg, Empty(), ops, n);
      forall p | 0 <= p < 64 && t'[p].used
        ensures Backed(cfg, ops, n, t'[p].ip, t'[p].rec)
      {
        if t'[p] == t[p] {
          BackedLater(cfg, ops, n - 1, t[p].ip, t[p].rec);
        } else {
          WrittenBacked(cfg, ops, n - 1, t, p);
        }
      }
    }
  }

  /** The one slot that a step changes and leaves occupied. */
  lemma WrittenBacked(cfg: Config, ops: seq<Op>, n: nat, t: Slots, p: nat)
    requires n < |ops| && |t| == 64 && p < 64 && ClockRuns(ops) && AllBacked(cfg, ops, n, t)
    requires var s := Step(cfg, t, ops[n])[p]; s != t[p] && s.used
    ensures var s := Step(cfg, t, ops[n])[p]; Backed(cfg, ops, n + 1, s.ip, s.rec)
  {
    hide FailEntry, Backed, Probe;
    var ip := ops[n].ip;
    assert ops[n].Failed?;
    match Find(t, ip)
    case Some(q) =>
      FailureBacked(cfg, ops, n, t[q].rec);
    case None =>
      FirstBacked(cfg, ops, n);
  }

  lemma FirstBacked(cfg: Config, ops: seq<Op>, n: nat)
    requires n < |ops| && ops[n].Failed?
    ensures Backed(cfg, ops, n + 1, ops[n].ip, FirstEntry(ops[n].now))
  {
    assert Duration(cfg, 0) == 0 && Series(cfg, ops, n + 1, ops[n].ip, 0, 0);
  }

  // ---- the backoff ------------------------------------------------------------------------

  function Pow2(k: nat): (p: nat)
    ensures p >= 1
  {
    if k == 0 then 1 else 2 * Pow2(k - 1)
  }

  function Min(a: nat, b: nat): nat { if a < b then a else b }

  function Max(a: nat, b: nat): nat { if a < b then b else a }

  /** The duration of the k-th block of an entry, counting from 1; 0 before the first. */
  function Duration(cfg: Config, k: nat): nat {
    if k == 0 then 0 else NextDuration(Duration(cfg, k - 1), cfg)
  }

  /** The k-th block lasts min(minBlock * 2^(k-1), maxBlock); the 32-bit doubling never wraps. */
  lemma {:induction false} BackoffClosedForm(cfg: Config, k: nat)
    requires cfg.minBlock <= cfg.maxBlock <= 86400 && k >= 1
    ensures Duration(cfg, k) == Min(cfg.minBlock * Pow2(k - 1), cfg.maxBlock)
    ensures Duration(cfg, k) * 2 < TWO32
  {
    hide Pow2, NextDuration;
    if k > 1 {
      BackoffClosedForm(cfg, k - 1);
      Doubled(cfg.minBlock, k - 1);
      NextClosed(cfg, cfg.minBlock * Pow2(k - 2));
    } else {
      FirstDuration(cfg);
    }
  }

  lemma FirstDuration(cfg: Config)
    ensures Duration(cfg, 1) == cfg.minBlock && Pow2(0) == 1
  {
    assert Duration(cfg, 1) == NextDuration(0, cfg);
  }

  lemma NextClosed(cfg: Config, x: nat)
    requires cfg.minBlock <= cfg.maxBlock <= 86400 && x >= cfg.minBlock
    ensures NextDuration(Min(x, cfg.maxBlock), cfg) == Min(2 * x, cfg.maxBlock)
  {
  }

  lemma Doubled(b: nat, k: nat)
    requires k >= 1
    ensures b * Pow2(k) == 2 * (b * Pow2(k - 1)) && b * Pow2(k) >= b
  {
  }

  /** The documented formula min(maxBlock, max(minBlock, 2 * previous)). */
  function DocumentedDuration(previous: nat, cfg: Config): nat {
    Min(cfg.maxBlock, Max(cfg.minBlock, 2 * previous))
  }

  lemma DocumentedStep(cfg: Config, k: nat)
    requires 1 <= cfg.minBlock <= cfg.maxBlock <= 86400
    ensures Duration(cfg, k + 1) == DocumentedDuration(Duration(cfg, k), cfg)
  {
    hide NextDuration, DocumentedDuration;
    if k > 0 {
      DurationRange(cfg, k);
    }
    NextDocumented(cfg, Duration(cfg, k));
  }

  lemma NextDocumented(cfg: Config, d: nat)
    requires cfg.minBlock <= cfg.maxBlock <= 86400 && (d == 0 || cfg.minBlock <= d <= cfg.maxBlock)
    ensures NextDuration(d, cfg) == DocumentedDuration(d, cfg)
  {
  }

  lemma {:induction false} DurationRange(cfg: Config, k: nat)
    requires 1 <= cfg.minBlock <= cfg.maxBlock <= 86400 && k >= 1
    ensures cfg.minBlock <= Duration(cfg, k) <= cfg.maxBlock
  {
    if k > 1 {
      DurationRange(cfg, k - 1);
    } else {
      assert Duration(cfg, 1) == NextDuration(0, cfg);
    }
  }

  /** Within the option bounds the code computes the documented durations exactly when
      minBlock does not exceed maxBlock, which the option parser does not check. */
  lemma DocumentedIff(cfg: Config)
    requires 1 <= cfg.minBlock <= 86400 && 1 <= cfg.maxBlock <= 86400
    ensures (forall k: nat :: Duration(cfg, k + 1) == DocumentedDuration(Duration(cfg, k), cfg))
       <==> cfg.minBlock <= cfg.maxBlock
  {
    if cfg.minBlock <= cfg.maxBlock {
      forall k: nat
        ensures Duration(cfg, k + 1) == DocumentedDuration(Duration(cfg, k), cfg)
      {
        DocumentedStep(cfg, k);
      }
    } else {
      assert Duration(cfg, 0 + 1) != DocumentedDuration(Duration(cfg, 0), cfg);
    }
  }

  datatype Block = Block(from: nat, until: nat)

  /** An entry after failures at the given times, from its creation on, and the blocks it went through. */
  function EntryRun(cfg: Config, times: seq<nat>): (r: (Entry, seq<Block>))
    requires |times| >= 1
  {
    var n := |times| - 1;
    if n == 0 then (FirstEntry(times[0]), [])
    else
      var (e, log) := EntryRun(cfg, times[..n]);
      var e' := FailEntry(e, times[n], cfg);
      (e', if Blocks(e, times[n], cfg) then log + [Block(times[n], e'.blockUntil)] else log)
  }

  /** The guard under which a failure starts a block. */
  predicate Blocks(e: Entry, now: nat, cfg: Config) {
    now - e.firstFail <= cfg.window && (e.failCount + 1) % TWO32 >= cfg.maxFails && now >= e.blockUntil
  }

  /** Along the whole life of an entry: the k-th block has the k-th duration, blocks do not
      overlap, and the entry always carries the end and the length of the latest one. */
  lemma {:induction false} EntryBlocks(cfg: Config, times: seq<nat>)
    requires |times| >= 1
    ensures var (e, log) := EntryRun(cfg, times);
            && e.blockDuration == Duration(cfg, |log|)
            && e.blockUntil == (if |log| == 0 then 0 else log[|log| - 1].until)
            && (forall i :: 0 <= i < |log| ==> log[i].until == log[i].from + Duration(cfg, i + 1))
            && (forall i :: 0 < i < |log| ==> log[i - 1].until <= log[i].from)
  {
    hide NextDuration;
    var n := |times| - 1;
    if n > 0 {
      EntryBlocks(cfg, times[..n]);
      var (e, log) := EntryRun(cfg, times[..n]);
      assert Duration(cfg, |log| + 1) == NextDuration(e.blockDuration, cfg);
    }
  }

  /** So the blocks of an entry grow as minBlock * 2^i up to maxBlock. */
  lemma BlockLengths(cfg: Config, times: seq<nat>, i: nat)
    requires |times| >= 1 && cfg.minBlock <= cfg.maxBlock <= 86400 && i < |EntryRun(cfg, times).1|
    ensures var b := EntryRun(cfg, times).1[i]; b.until - b.from == Min(cfg.minBlock * Pow2(i), cfg.maxBlock)
  {
    EntryBlocks(cfg, times);
    BackoffClosedForm(cfg, i + 1);
  }

  // ---- no unjustified block, concluded ------------------------------------------------------

  ghost predicate SomeDuration(cfg: Config, d: nat) {
    exists k: nat :: d == Duration(cfg, k)
  }

  ghost predicate AllDurations(cfg: Config, t: Slots) {
    |t| == 64 && forall p :: 0 <= p < 64 && t[p].used ==> SomeDuration(cfg, t[p].rec.blockDuration)
  }

  lemma {:induction false} RunDurations(cfg: Config, ops: seq<Op>, n: nat)
    requires n <= |ops|
    ensures AllDurations(cfg, Run(cfg, Empty(), ops, n))
  {
    hide Probe;
    if n > 0 {
      RunDurations(cfg, ops, n - 1);
      var t, t' := Run(cfg, Empty(), ops, n - 1), Run(cfg, Empty(), ops, n);
      forall p | 0 <= p < 64 && t'[p].used
        ensures SomeDuration(cfg, t'[p].rec.blockDuration)
      {
        if t'[p] != t[p] && Find(t, ops[n - 1].ip).Some? {
          NextIsSome(cfg, Lookup(t, ops[n - 1].ip).value, ops[n - 1].now);
        } else if t'[p] != t[p] {
          assert t'[p].rec.blockDuration == Duration(cfg, 0);
        }
      }
    }
  }

  lemma NextIsSome(cfg: Config, e: Entry, now: nat)
    requires SomeDuration(cfg, e.blockDuration)
    ensures SomeDuration(cfg, FailEntry(e, now, cfg).blockDuration)
  {
    var k: nat :| e.blockDuration == Duration(cfg, k);
    assert NextDuration(e.blockDuration, cfg) == Duration(cfg, k + 1);
  }

  // ---- the documented failure rule ----------------------------------------------------------

  /** What the documentation has a failure do, with the test that ends the window and the duration of
      a block left open. */
  function FailureRule(e: Entry, now: nat, cfg: Config, over: bool, duration: nat): Entry {
    if over then e.(failCount := 1, firstFail := now)
    else if e.failCount + 1 >= cfg.maxFails && now >= e.blockUntil then
      Entry(e.failCount + 1, e.firstFail, now + duration, duration)
    else e.(failCount := e.failCount + 1)
  }

  /** The documented window is over when `window` seconds have passed, not when more have. */
  function DocumentedEntry(e: Entry, now: nat, cfg: Config): Entry {
    FailureRule(e, now, cfg, now - e.firstFail >= cfg.window, DocumentedDuration(e.blockDuration, cfg))
  }

  /** Whatever the durations, the two tests differ exactly `window` seconds after the first failure. */
  lemma DocumentedWindowIff(e: Entry, now: nat, cfg: Config, d: nat)
    requires cfg.window >= 1
    ensures var age := now - e.firstFail;
            var coded, documented := age > cfg.window, age >= cfg.window;
            FailureRule(e, now, cfg, coded, d) == FailureRule(e, now, cfg, documented, d) <==> age != cfg.window
  {
  }

  /** On every entry that a run can hold, a failure does what is documented if and only if it does not
      come exactly `window` seconds after the first failure of the window. */
  lemma DocumentedFailureIff(e: Entry, now: nat, cfg: Config)
    requires cfg.window >= 1 && 1 <= cfg.minBlock <= cfg.maxBlock <= 86400
    requires SomeDuration(cfg, e.blockDuration) && e.failCount + 1 < TWO32
    ensures FailEntry(e, now, cfg) == DocumentedEntry(e, now, cfg) <==> now - e.firstFail != cfg.window
  {
    hide NextDuration, DocumentedDuration;
    var k: nat :| e.blockDuration == Duration(cfg, k);
    DocumentedStep(cfg, k);
    assert NextDuration(e.blockDuration, cfg) == DocumentedDuration(e.blockDuration, cfg);
    DocumentedWindowIff(e, now, cfg, NextDuration(e.blockDuration, cfg));
  }

  /** On every run, removals included: a rejected address has at least maxFails failures of its own
      inside one window, and less than the block's duration has passed since the last of them; that
      duration is the one due for it in the series of the address's earned blocks. */
  lemma NoUnjustifiedBlock(cfg: Config, ops: seq<Op>, ip: Ip, now: nat)
    returns (k: nat, p: nat, from: nat, before: nat, until: nat)
    requires ClockRuns(ops) && !Allowed(Run(cfg, Empty(), ops, |ops|), ip, now)
    ensures k >= 1 && Begins(cfg, ops, p, ip, k, from, before, until) && now < until
    ensures Series(cfg, ops, p, ip, k - 1, before)
  {
    hide Run, Probe, Duration, Begins;
    RunBacked(cfg, ops, |ops|);
    var t := Run(cfg, Empty(), ops, |ops|);
    var e := t[Find(t, ip).value].rec;
    assert Backed(cfg, ops, |ops|, ip, e);
    k :| e.blockDuration == Duration(cfg, k) && Series(cfg, ops, |ops|, ip, k, e.blockUntil);
    until := e.blockUntil;
    p, from, before :|
      p < |ops| && Begins(cfg, ops, p, ip, k, from, before, until) && Series(cfg, ops, p, ip, k - 1, before);
  }

  // ---- other hosts' successes ---------------------------------------------------------------

  /** The entry of `other` lies on the way to the entry of `ip`. */
  predicate OnPath(t: Slots, other: Ip, ip: Ip)
    requires |t| == 64
  {
    && Find(t, other).Some? && Find(t, ip).Some?
    && Offset(ip, Find(t, other).value) < Offset(ip, Find(t, ip).value)
  }

  lemma OffsetOf(ip: Ip, i: nat)
    requires i < 64
    ensures Offset(ip, Pos(ip, i)) == i
  {
    hide Home;
  }

  lemma SuccessFrees(t: Slots, other: Ip, p: nat)
    requires |t| == 64 && p < 64
    ensures Freed(t, Success(t, other), p) <==> Find(t, other) == Some(p)
  {
    hide Probe;
  }

  /** Freeing the slot of `other` severs a path of `ip` exactly when it lies on it. */
  lemma SuccessSeversIff(t: Slots, other: Ip, ip: Ip)
    requires |t| == 64 && Intact(t, ip) && ip != other
    ensures Severs(t, Success(t, other), ip) <==> OnPath(t, other, ip)
  {
    hide Home, Probe, Intact, Success, Freed, Pos, Offset;
    var t' := Success(t, other);
    if Severs(t, t', ip) {
      var i, j :| 0 <= j < i < 64 && Survives(t, t', ip, i) && Freed(t, t', Pos(ip, j));
      SuccessFrees(t, other, Pos(ip, j));
      IntactFinds(t, ip, Pos(ip, i));
      OffsetOf(ip, i);
      OffsetOf(ip, j);
    }
    if OnPath(t, other, ip) {
      var p, q := Find(t, other).value, Find(t, ip).value;
      var i, j := Offset(ip, q), Offset(ip, p);
      SuccessFrees(t, other, p);
      SuccessFrees(t, other, q);
      assert Freed(t, t', Pos(ip, j));
      assert Survives(t, t', ip, i) by {
        assert Holds(t, ip, i) && !Freed(t, t', q);
        StillUsed(t, other, q);
      }
    }
  }

  lemma StillUsed(t: Slots, other: Ip, q: nat)
    requires |t| == 64 && q < 64 && t[q].used && !Freed(t, Success(t, other), q)
    ensures Success(t, other)[q].used
  {
    hide Success;
  }

  /** Another host's success lifts a running block of `ip` if and only if that host's entry lies on
      the way to the entry of `ip`. */
  lemma SuccessLiftsBlockIff(t: Slots, other: Ip, ip: Ip, now: nat)
    requires |t| == 64 && Intact(t, ip) && ip != other && !Allowed(t, ip, now)
    ensures Allowed(Success(t, other), ip, now) <==> OnPath(t, other, ip)
  {
    hide Severs, OnPath, Intact, Success, Find;
    SuccessSeversIff(t, other, ip);
    if OnPath(t, other, ip) {
      SeveredLookup(t, Success(t, other), ip);
    } else {
      SuccessKeeps(t, other, ip);
    }
  }

  /** Otherwise the entry of `ip` is found as before. */
  lemma SuccessKeeps(t: Slots, other: Ip, ip: Ip)
    requires |t| == 64 && Intact(t, ip) && ip != other && !OnPath(t, other, ip)
    ensures Intact(Success(t, other), ip) && Lookup(Success(t, other), ip) == Lookup(t, ip)
  {
    hide Severs, OnPath, Intact, Probe;
    var t' := Success(t, other);
    SuccessSeversIff(t, other, ip);
    FreeIntact(t, t', ip);
    FreeLookup(t, t', ip);
  }

  // ---- enough failures do block -------------------------------------------------------------

  /** Operations that leave the entry of `ip` reachable: no success of its own, and none of an
      address whose entry lies on the way to it. */
  ghost predicate Undisturbed(cfg: Config, start: Slots, ops: seq<Op>, ip: Ip)
    requires |start| == 64
  {
    forall k :: 0 <= k < |ops| && ops[k].Succeeded? ==>
      ops[k].ip != ip && !OnPath(Run(cfg, start, ops, k), ops[k].ip, ip)
  }

  ghost predicate InWindow(cfg: Config, ops: seq<Op>, ip: Ip, first: nat) {
    forall k :: 0 <= k < |ops| && ops[k].Failed? && ops[k].ip == ip ==> first <= ops[k].now <= first + cfg.window
  }

  /** Below the threshold: the entry counts the failures so far and blocks nothing. */
  lemma {:induction false} CountsUp(cfg: Config, start: Slots, ops: seq<Op>, n: nat, ip: Ip, first: nat)
    requires |start| == 64 && 1 <= n <= |ops|
    requires Intact(start, ip) && Lookup(start, ip).None? && Target(start, ip).Some?
    requires ops[0] == Failed(ip, first) && Undisturbed(cfg, start, ops, ip) && InWindow(cfg, ops, ip, first)
    requires Failures(ops, n, ip, first) < cfg.maxFails < TWO32
    ensures var t := Run(cfg, start, ops, n);
            Intact(t, ip) && Lookup(t, ip) == Some(Entry(Failures(ops, n, ip, first), first, 0, 0))
  {
    hide Step, FailEntry, Lookup, Intact, OnPath, Target;
    var t := Run(cfg, start, ops, n - 1);
    if n == 1 {
      assert Failures(ops, 0, ip, first) == 0 && Run(cfg, start, ops, 0) == start;
      FirstStep(cfg, start, ip, first);
    } else {
      CountsUp(cfg, start, ops, n - 1, ip, first);
      KeepsEntry(cfg, t, ops[n - 1], ip);
      if ops[n - 1].Failed? && ops[n - 1].ip == ip {
        CountsOne(cfg, Failures(ops, n - 1, ip, first), first, ops[n - 1].now);
      }
    }
  }

  lemma FirstStep(cfg: Config, start: Slots, ip: Ip, first: nat)
    requires |start| == 64 && Intact(start, ip) && Lookup(start, ip).None? && Target(start, ip).Some?
    ensures var t := Step(cfg, start, Failed(ip, first)); Intact(t, ip) && Lookup(t, ip) == Some(FirstEntry(first))
  {
    hide Home, Probe;
    PutLookup(start, ip, FirstEntry(first), ip);
    PutIntact(start, ip, FirstEntry(first), ip);
  }

  /** A failure inside the window, below the threshold and at it. */
  lemma CountsOne(cfg: Config, count: nat, first: nat, now: nat)
    requires first <= now <= first + cfg.window && count + 1 <= cfg.maxFails < TWO32
    ensures FailEntry(Entry(count, first, 0, 0), now, cfg)
         == if count + 1 < cfg.maxFails then Entry(count + 1, first, 0, 0)
            else Entry(count + 1, first, now + cfg.minBlock, cfg.minBlock)
  {
  }

  /** One step's effect on the entry of an intact, present address. */
  lemma KeepsEntry(cfg: Config, t: Slots, op: Op, ip: Ip)
    requires |t| == 64 && Intact(t, ip) && Lookup(t, ip).Some?
    requires op.Succeeded? ==> op.ip != ip && !OnPath(t, op.ip, ip)
    ensures Intact(Step(cfg, t, op), ip)
    ensures Lookup(Step(cfg, t, op), ip)
         == if op.Failed? && op.ip == ip then Some(FailEntry(Lookup(t, ip).value, op.now, cfg)) else Lookup(t, ip)
  {
    hide Home, FailEntry;
    match op
    case Failed(other, now) =>
      var e := match Lookup(t, other) case Some(e) => FailEntry(e, now, cfg) case None => FirstEntry(now);
      PutIntact(t, other, e, ip);
      if Target(t, other).Some? {
        PutLookup(t, other, e, ip);
      }
    case Succeeded(other) =>
      SuccessKeeps(t, other, ip);
  }

  /** The entry that the last of the first maxFails failures leaves, through any operations after it. */
  lemma {:induction false} ThresholdEntry(cfg: Config, start: Slots, ops: seq<Op>, m: nat, n: nat, ip: Ip, first: nat)
    requires |start| == 64 && 2 <= cfg.maxFails < TWO32 && 2 <= m <= n <= |ops|
    requires Intact(start, ip) && Lookup(start, ip).None? && Target(start, ip).Some?
    requires ops[0] == Failed(ip, first) && Undisturbed(cfg, start, ops, ip) && InWindow(cfg, ops, ip, first)
    requires ops[m - 1].Failed? && ops[m - 1].ip == ip && Failures(ops, m, ip, first) == cfg.maxFails
    requires forall k :: m <= k < n && ops[k].Failed? ==> ops[k].ip != ip
    ensures var t, until := Run(cfg, start, ops, n), ops[m - 1].now + cfg.minBlock;
            Intact(t, ip) && Lookup(t, ip) == Some(Entry(cfg.maxFails, first, until, cfg.minBlock))
    decreases n
  {
    hide Step, FailEntry, Lookup, Intact, OnPath, Target;
    if n == m {
      CountsUp(cfg, start, ops, n - 1, ip, first);
      CountsOne(cfg, Failures(ops, n - 1, ip, first), first, ops[n - 1].now);
    } else {
      ThresholdEntry(cfg, start, ops, m, n - 1, ip, first);
    }
    KeepsEntry(cfg, Run(cfg, start, ops, n - 1), ops[n - 1], ip);
  }

  /** An address whose first maxFails failures fall inside one window is rejected from the last of
      them on for exactly minBlock seconds, and let through again when those are over: at every
      check, whatever other addresses do in the meantime that leaves its entry reachable. */
  lemma ThresholdBlocks(cfg: Config, start: Slots, ops: seq<Op>, m: nat, n: nat, ip: Ip, first: nat, now: nat)
    requires |start| == 64 && 2 <= cfg.maxFails < TWO32 && 2 <= m <= n <= |ops|
    requires Intact(start, ip) && Lookup(start, ip).None? && Target(start, ip).Some?
    requires ops[0] == Failed(ip, first) && Undisturbed(cfg, start, ops, ip) && InWindow(cfg, ops, ip, first)
    requires ops[m - 1].Failed? && ops[m - 1].ip == ip && Failures(ops, m, ip, first) == cfg.maxFails
    requires forall k :: m <= k < n && ops[k].Failed? ==> ops[k].ip != ip
    ensures Allowed(Run(cfg, start, ops, n), ip, now) <==> ops[m - 1].now + cfg.minBlock <= now
  {
    hide Run, Lookup, Intact, Target, Undisturbed, InWindow;
    ThresholdEntry(cfg, start, ops, m, n, ip, first);
  }

  /** With maxFails below 2 the threshold is not honoured: the first failure never blocks. */
  lemma FirstFailureNeverBlocks(cfg: Config, start: Slots, ip: Ip, now: nat, later: nat)
    requires |start| == 64 && Lookup(start, ip).None?
    ensures Allowed(Fail(start, ip, now, cfg), ip, later)
  {
    if Target(start, ip).Some? {
      PutLookup(start, ip, FirstEntry(now), ip);
    }
  }

  /** The times of the failures of `ip` among the first n operations. */
  ghost function FailTimes(ops: seq<Op>, n: nat, ip: Ip): seq<nat>
    requires n <= |ops|
  {
    if n == 0 then []
    else if ops[n - 1].Failed? && ops[n - 1].ip == ip then FailTimes(ops, n - 1, ip) + [ops[n - 1].now]
    else FailTimes(ops, n - 1, ip)
  }

  lemma EntryStarts(cfg: Config, first: nat)
    ensures EntryRun(cfg, [first]).0 == FirstEntry(first)
  {
  }

  lemma EntryNext(cfg: Config, times: seq<nat>, now: nat)
    requires |times| >= 1
    ensures EntryRun(cfg, times + [now]).0 == FailEntry(EntryRun(cfg, times).0, now, cfg)
  {
    hide FailEntry, Blocks;
    assert (times + [now])[..|times|] == times;
  }

  /** In the table, too, an undisturbed entry runs through exactly those blocks. */
  lemma {:induction false} TableFollowsEntry(cfg: Config, start: Slots, ops: seq<Op>, n: nat, ip: Ip, first: nat)
    requires |start| == 64 && 1 <= n <= |ops|
    requires Intact(start, ip) && Lookup(start, ip).None? && Target(start, ip).Some?
    requires ops[0] == Failed(ip, first) && Undisturbed(cfg, start, ops, ip)
    ensures |FailTimes(ops, n, ip)| >= 1
    ensures var t := Run(cfg, start, ops, n);
            Intact(t, ip) && Lookup(t, ip) == Some(EntryRun(cfg, FailTimes(ops, n, ip)).0)
  {
    hide Step, FailEntry, Lookup, Intact, OnPath, Target, EntryRun;
    if n == 1 {
      assert FailTimes(ops, 0, ip) == [] && Run(cfg, start, ops, 0) == start;
      FirstStep(cfg, start, ip, first);
      EntryStarts(cfg, first);
      assert FailTimes(ops, 1, ip) == [first];
    } else {
      TableFollowsEntry(cfg, start, ops, n - 1, ip, first);
      KeepsEntry(cfg, Run(cfg, start, ops, n - 1), ops[n - 1], ip);
      if ops[n - 1].Failed? && ops[n - 1].ip == ip {
        EntryNext(cfg, FailTimes(ops, n - 1, ip), ops[n - 1].now);
      }
    }
  }
}
