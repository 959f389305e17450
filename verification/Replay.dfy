/** The replay table of src/auth.c as a value: what each operation does to the 64 slots,
    and how that relates to a map from address to the last accepted counter. */
module Replay {
  import opened Bytes
  import opened Addr
  import opened ProbeTable

  datatype Record = Record(lastSeq: nat, lastSeen: nat)

  type Slots = seq<Slot<Record>>

  /** auth_replay_reset */
  function Empty(): (t: Slots)
    ensures |t| == 64 && AllIntact(t)
  {
    seq(64, _ => Slot(false, Ip(0, Zeros(16)), Record(0, 0)))
  }

  predicate SeenBefore(t: Slots, counter: nat, ip: Ip)
    requires |t| == 64
  {
    match Lookup(t, ip)
    case Some(r) => counter <= r.lastSeq
    case None => false
  }

  predicate Expired(s: Slot<Record>, now: nat, maxAge: nat) {
    s.used && now - s.rec.lastSeen > maxAge
  }

  /** auth_replay_prune */
  function Prune(t: Slots, now: nat, maxAge: nat): (t': Slots)
    requires |t| == 64
    ensures Frees(t, t')
    ensures forall p :: 0 <= p < 64 ==> t'[p].used == (t[p].used && !Expired(t[p], now, maxAge))
  {
    seq(64, p requires 0 <= p < 64 => if Expired(t[p], now, maxAge) then t[p].(used := false) else t[p])
  }

  /** The table, the time and the age say beforehand whether a sweep cuts a path of `ip`: an entry
      that is too old lies on the way to an entry of `ip` that is not. */
  ghost predicate Cuts(t: Slots, now: nat, maxAge: nat, ip: Ip)
    requires |t| == 64
  {
    exists i, j :: 0 <= j < i < 64 && Stays(t, now, maxAge, ip, i) && Expired(t[Pos(ip, j)], now, maxAge)
  }

  ghost predicate Stays(t: Slots, now: nat, maxAge: nat, ip: Ip, i: nat)
    requires |t| == 64
  {
    Holds(t, ip, i) && !Expired(t[Pos(ip, i)], now, maxAge)
  }

  ghost predicate CutsNone(t: Slots, now: nat, maxAge: nat)
    requires |t| == 64
  {
    forall ip :: !Cuts(t, now, maxAge, ip)
  }

  lemma CutsSevers(t: Slots, now: nat, maxAge: nat, ip: Ip)
    requires |t| == 64
    ensures Cuts(t, now, maxAge, ip) <==> Severs(t, Prune(t, now, maxAge), ip)
  {
    hide Pos;
    var t' := Prune(t, now, maxAge);
    assert forall i :: 0 <= i < 64 ==> (Stays(t, now, maxAge, ip, i) <==> Survives(t, t', ip, i));
    assert forall p :: 0 <= p < 64 ==> (Expired(t[p], now, maxAge) <==> Freed(t, t', p));
  }

  /** Pruning keeps the probe-path invariant of an address if and only if no entry it removes lies on
      the way to an entry of that address which it keeps. */
  lemma PruneKeepsPathIff(t: Slots, now: nat, maxAge: nat, ip: Ip)
    requires |t| == 64 && Intact(t, ip)
    ensures Intact(Prune(t, now, maxAge), ip) <==> !Cuts(t, now, maxAge, ip)
  {
    hide Severs, Intact, Prune;
    CutsSevers(t, now, maxAge, ip);
    FreeIntact(t, Prune(t, now, maxAge), ip);
  }

  /** So it keeps that of the whole table if and only if it cuts no path at all. */
  lemma PruneKeepsPathsIff(t: Slots, now: nat, maxAge: nat)
    requires |t| == 64 && AllIntact(t)
    ensures AllIntact(Prune(t, now, maxAge)) <==> CutsNone(t, now, maxAge)
  {
    hide Cuts, Intact, Prune;
    forall ip
      ensures Intact(Prune(t, now, maxAge), ip) <==> !Cuts(t, now, maxAge, ip)
    {
      assert Intact(t, ip);
      PruneKeepsPathIff(t, now, maxAge, ip);
    }
  }

  /** A surviving entry is still found if and only if no removed entry lies on the way to it; if one
      does, the address reads as absent and can be recorded anew in another slot. */
  lemma SurvivorFoundIff(t: Slots, now: nat, maxAge: nat, ip: Ip)
    requires |t| == 64 && Intact(t, ip) && Find(t, ip).Some? && !Expired(t[Find(t, ip).value], now, maxAge)
    ensures var t' := Prune(t, now, maxAge);
            && (Lookup(t', ip) == Lookup(t, ip) <==> !Cuts(t, now, maxAge, ip))
            && (Cuts(t, now, maxAge, ip) ==>
                  Lookup(t', ip).None? && Target(t', ip).Some? && Target(t', ip) != Find(t, ip))
  {
    hide Severs, Cuts, Intact, Find, Target;
    var t' := Prune(t, now, maxAge);
    CutsSevers(t, now, maxAge, ip);
    if Cuts(t, now, maxAge, ip) {
      SeveredLookup(t, t', ip);
    } else {
      FreeLookup(t, t', ip);
    }
  }

  // ---- refinement of a map over whole call sequences ------------------------------------

  datatype Op = Seen(counter: nat, ip: Ip) | Store(counter: nat, ip: Ip, time: nat) | Sweep(now: nat, maxAge: nat)

  /** One call on the table: the new table and the answer (0 is true, -1 is false). */
  function TableStep(t: Slots, op: Op): (r: (Slots, bool))
    requires |t| == 64
    ensures |r.0| == 64
  {
    match op
    case Seen(c, ip) => (t, !SeenBefore(t, c, ip))
    case Store(c, ip, time) => (Put(t, ip, Record(c, time)), Target(t, ip).Some?)
    case Sweep(now, age) => (Prune(t, now, age), true)
  }

  /** The same call on a map that holds at most 64 addresses. */
  ghost function MapStep(m: map<Ip, Record>, op: Op): (map<Ip, Record>, bool) {
    match op
    case Seen(c, ip) => (m, !(ip in m && c <= m[ip].lastSeq))
    case Store(c, ip, time) => if ip in m || |m| < 64 then (m[ip := Record(c, time)], true) else (m, false)
    case Sweep(now, age) => (Filtered(m, now, age), true)
  }

  /** Table and answer after the first n calls from a reset. */
  function TableRun(ops: seq<Op>, n: nat): (r: (Slots, bool))
    requires n <= |ops|
    ensures |r.0| == 64
  {
    if n == 0 then (Empty(), true) else TableStep(TableRun(ops, n - 1).0, ops[n - 1])
  }

  ghost function MapRun(ops: seq<Op>, n: nat): (map<Ip, Record>, bool)
    requires n <= |ops|
  {
    if n == 0 then (map[], true) else MapStep(MapRun(ops, n - 1).0, ops[n - 1])
  }

  /** No sweep of the run meets a table of which it cuts a path. */
  ghost predicate SweepsKeepPaths(ops: seq<Op>) {
    forall k :: 0 <= k < |ops| && ops[k].Sweep? ==> CutsNone(TableRun(ops, k).0, ops[k].now, ops[k].maxAge)
  }

  /** From a reset, every sequence of calls whose sweeps cut no path answers exactly as the map does. */
  lemma {:induction false} TableRefinesMap(ops: seq<Op>, n: nat)
    requires n <= |ops| && SweepsKeepPaths(ops)
    ensures AllIntact(TableRun(ops, n).0)
    ensures AsMap(TableRun(ops, n).0) == MapRun(ops, n).0
    ensures TableRun(ops, n).1 == MapRun(ops, n).1
  {
    hide AllIntact, TableStep, MapStep, AsMap, CutsNone;
    if n == 0 {
      SameAnswers(Empty(), map[]);
    } else {
      TableRefinesMap(ops, n - 1);
      StepRefines(TableRun(ops, n - 1).0, ops[n - 1]);
    }
  }

  /** One call, on an intact table. */
  lemma StepRefines(t: Slots, op: Op)
    requires |t| == 64 && AllIntact(t)
    requires op.Sweep? ==> CutsNone(t, op.now, op.maxAge)
    ensures AllIntact(TableStep(t, op).0)
    ensures AsMap(TableStep(t, op).0) == MapStep(AsMap(t), op).0
    ensures TableStep(t, op).1 == MapStep(AsMap(t), op).1
  {
    hide AllIntact;
    match op
    case Seen(c, ip) =>
    case Store(c, ip, time) =>
      FullIffMapFull(t, ip);
      MapSize(t);
      if Target(t, ip).Some? {
        PutAsMap(t, ip, Record(c, time));
      }
    case Sweep(now, age) =>
      SweepRefines(t, now, age);
  }

  lemma MapSize(t: Slots)
    requires |t| == 64 && AllIntact(t)
    ensures |AsMap(t)| <= 64
  {
    MapKeys(t);
    KeyCount(t, 64);
  }

  /** What a sweep does to a map. */
  ghost function Filtered(m: map<Ip, Record>, now: nat, age: nat): map<Ip, Record> {
    map ip | ip in m && !(now - m[ip].lastSeen > age) :: m[ip]
  }

  lemma SweepRefines(t: Slots, now: nat, age: nat)
    requires |t| == 64 && AllIntact(t) && CutsNone(t, now, age)
    ensures AllIntact(Prune(t, now, age)) && AsMap(Prune(t, now, age)) == Filtered(AsMap(t), now, age)
  {
    var t', m := Prune(t, now, age), AsMap(t);
    var m' := Filtered(m, now, age);
    PruneKeepsPathsIff(t, now, age);
    forall ip
      ensures Lookup(t', ip) == if ip in m' then Some(m'[ip]) else None
    {
      assert !Cuts(t, now, age, ip) && Intact(t, ip);
      CutsSevers(t, now, age, ip);
      FreeLookup(t, t', ip);
      assert Lookup(t, ip) == if ip in m then Some(m[ip]) else None;
    }
    SameAnswers(t', m');
  }

  /** A sweep of an intact table is the sweep of its map if and only if it cuts no path. */
  lemma SweepRefinesIff(t: Slots, now: nat, age: nat)
    requires |t| == 64 && AllIntact(t)
    ensures AsMap(Prune(t, now, age)) == Filtered(AsMap(t), now, age) <==> CutsNone(t, now, age)
  {
    hide AllIntact, AsMap, Cuts, Filtered, Prune;
    if CutsNone(t, now, age) {
      SweepRefines(t, now, age);
    } else {
      var ip :| Cuts(t, now, age, ip);
      CutHides(t, now, age, ip);
    }
  }

  lemma CutHides(t: Slots, now: nat, age: nat, ip: Ip)
    requires |t| == 64 && AllIntact(t) && Cuts(t, now, age, ip)
    ensures ip in Filtered(AsMap(t), now, age) && ip !in AsMap(Prune(t, now, age))
  {
    hide Prune, Severs, Cuts, Intact, Find;
    assert Intact(t, ip);
    CutSurvivor(t, now, age, ip);
    CutsSevers(t, now, age, ip);
    SeveredLookup(t, Prune(t, now, age), ip);
    assert Lookup(t, ip) == if ip in AsMap(t) then Some(AsMap(t)[ip]) else None;
  }

  lemma CutSurvivor(t: Slots, now: nat, age: nat, ip: Ip)
    requires |t| == 64 && Intact(t, ip) && Cuts(t, now, age, ip)
    ensures Find(t, ip).Some? && !Expired(t[Find(t, ip).value], now, age)
  {
    hide Intact, Home, Probe;
    var i, j :| 0 <= j < i < 64 && Stays(t, now, age, ip, i) && Expired(t[Pos(ip, j)], now, age);
    var p := Pos(ip, i);
    assert t[p].used && t[p].ip == ip;
    IntactFinds(t, ip, p);
    assert Find(t, ip) == Some(p);
  }

  // ---- what a sweep that cuts a path does -----------------------------------------------

  /** Two addresses with one home slot: the older entry is swept, and the younger one, though
      it stays in the table, is no longer found. So the condition above cannot be dropped. */
  lemma SweepHidesEntry(a: Ip, b: Ip, counter: nat)
    requires a != b && Home(a) == Home(b)
    ensures var ops := [Store(counter, a, 0), Store(counter, b, 3601), Sweep(3601, 3600)];
            && SeenBefore(TableRun(ops, 2).0, counter, b)
            && !SeenBefore(TableRun(ops, 3).0, counter, b)
            && exists p :: 0 <= p < 64 && TableRun(ops, 3).0[p].used && TableRun(ops, 3).0[p].ip == b
  {
    hide Home;
    var ops := [Store(counter, a, 0), Store(counter, b, 3601), Sweep(3601, 3600)];
    var t0, t1, t2, t3 := TableRun(ops, 0).0, TableRun(ops, 1).0, TableRun(ops, 2).0, TableRun(ops, 3).0;
    var p, q := Pos(a, 0), Pos(b, 1);
    assert q == Pos(a, 1) && p == Pos(b, 0) && p != q;
    ProbeIs(t0, a, 0);
    assert t1 == t0[p := Slot(true, a, Record(counter, 0))];
    ProbeIs(t1, b, 1);
    assert t2 == t1[q := Slot(true, b, Record(counter, 3601))];
    ProbeIs(t2, b, 1);
    assert t3 == Prune(t2, 3601, 3600);
    assert t3[q] == t2[q];
    ProbeIs(t3, b, 0);
  }

  /** Such addresses exist, and hosts that have them. */
  lemma SharedHome()
    ensures exists a: SockAddr, b: SockAddr :: Key(a) != Key(b) && Home(Key(a)) == Home(Key(b))
  {
    var x: Bytes16, y: Bytes16 := [1, 0, 0, 0] + Zeros(12), [0, 0, 0, 0] + [1, 0, 0, 0] + Zeros(8);
    var a, b := V6(x, 0), V6(y, 0);
    assert Key(a) == Ip(AF_INET6, x) && Key(b) == Ip(AF_INET6, y) by {
      assert x[..12][11] == 0 && y[..12][11] == 0;
    }
    assert x[0] != y[0];
    assert Home(Key(a)) == Home(Key(b)) by {
      SameFold(x, y);
    }
  }

  lemma SameFold(x: Bytes16, y: Bytes16)
    requires x == [1, 0, 0, 0] + Zeros(12) && y == [0, 0, 0, 0] + [1, 0, 0, 0] + Zeros(8)
    ensures Folded(AF_INET6, x) == Folded(AF_INET6, y)
  {
    assert x[..12][..8] == x[..8] && x[..8][..4] == x[..4] && y[..12][..8] == y[..8] && y[..8][..4] == y[..4];
    assert Folded(AF_INET6, x[..4]) == Folded(AF_INET6, y[..8]);
    assert Folded(AF_INET6, x[..8]) == Folded(AF_INET6, x[..4]);
    assert Folded(AF_INET6, x[..12]) == Folded(AF_INET6, x[..8]);
    assert Folded(AF_INET6, y[..12]) == Folded(AF_INET6, y[..8]);
  }
}
