/** The 64-slot open-addressed table with circular linear probing that src/auth.c and
    src/ratelimit.c both keep, seen as a value. Slots are freed by clearing `used`:
    there is no tombstone and nothing is shifted back. */
module ProbeTable {
  import opened Bytes
  import opened Addr

  datatype Slot<R> = Slot(used: bool, ip: Ip, rec: R)

  /** The i-th slot on the probe path of `ip`. */
  function Pos(ip: Ip, i: nat): (p: nat)
    ensures p < 64
  {
    (Home(ip) + i) % 64
  }

  predicate Stops<R(==)>(t: seq<Slot<R>>, ip: Ip, i: nat)
    requires |t| == 64
  {
    !t[Pos(ip, i)].used || t[Pos(ip, i)].ip == ip
  }

  /** The first offset from i on at which probing for `ip` stops; 64 when it never does. */
  function Probe<R(==)>(t: seq<Slot<R>>, ip: Ip, i: nat): (stop: nat)
    requires |t| == 64 && i <= 64
    ensures i <= stop <= 64
    ensures stop < 64 ==> Stops(t, ip, stop)
    ensures forall j :: i <= j < stop ==> !Stops(t, ip, j)
    decreases 64 - i
  {
    if i == 64 then 64 else if Stops(t, ip, i) then i else Probe(t, ip, i + 1)
  }

  lemma ProbeStep<R>(t: seq<Slot<R>>, ip: Ip, i: nat)
    requires |t| == 64 && i < 64
    ensures Probe(t, ip, i) == if Stops(t, ip, i) then i else Probe(t, ip, i + 1)
  {
    hide Pos;
  }

  lemma ProbeEnd<R>(t: seq<Slot<R>>, ip: Ip)
    requires |t| == 64
    ensures Probe(t, ip, 64) == 64
  {
  }

  /** The slot a search for `ip` ends in, if it ends in one that holds `ip`. */
  function Find<R(==)>(t: seq<Slot<R>>, ip: Ip): (r: Option<nat>)
    requires |t| == 64
    ensures r.Some? ==> r.value < 64 && t[r.value].used && t[r.value].ip == ip
  {
    var i := Probe(t, ip, 0);
    if i < 64 && t[Pos(ip, i)].used then Some(Pos(ip, i)) else None
  }

  function Lookup<R(==)>(t: seq<Slot<R>>, ip: Ip): Option<R>
    requires |t| == 64
  {
    match Find(t, ip)
    case Some(p) => Some(t[p].rec)
    case None => None
  }

  /** The slot a record for `ip` is written to: its own, else the first free one on its path. */
  function Target<R(==)>(t: seq<Slot<R>>, ip: Ip): (r: Option<nat>)
    requires |t| == 64
    ensures r.Some? ==> r.value < 64
  {
    var i := Probe(t, ip, 0);
    if i < 64 then Some(Pos(ip, i)) else None
  }

  /** Write a record; a full path without `ip` leaves the table alone. */
  function Put<R(==)>(t: seq<Slot<R>>, ip: Ip, rec: R): (t': seq<Slot<R>>)
    requires |t| == 64
    ensures |t'| == 64
  {
    match Target(t, ip)
    case Some(p) => t[p := Slot(true, ip, rec)]
    case None => t
  }

  ghost predicate Holds<R>(t: seq<Slot<R>>, ip: Ip, i: nat)
    requires |t| == 64
  {
    t[Pos(ip, i)].used && t[Pos(ip, i)].ip == ip
  }

  /** The probe-path invariant for one key: any slot that holds `ip` is the one its search ends in. */
  ghost predicate Intact<R>(t: seq<Slot<R>>, ip: Ip)
    requires |t| == 64
  {
    forall i :: 0 <= i < 64 && Holds(t, ip, i) ==> forall j :: 0 <= j < i ==> !Stops(t, ip, j)
  }

  ghost predicate AllIntact<R>(t: seq<Slot<R>>)
    requires |t| == 64
  {
    forall ip :: Intact(t, ip)
  }

  /** Every slot is some offset away from home. */
  function Offset(ip: Ip, p: nat): (i: nat)
    requires p < 64
    ensures i < 64 && Pos(ip, i) == p
  {
    (p + 64 - Home(ip)) % 64
  }

  lemma PosInjective(ip: Ip, i: nat, j: nat)
    requires i < 64 && j < 64 && Pos(ip, i) == Pos(ip, j)
    ensures i == j
  {
    hide Home;
  }

  lemma ProbeIs<R>(t: seq<Slot<R>>, ip: Ip, stop: nat)
    requires |t| == 64 && stop <= 64
    requires stop < 64 ==> Stops(t, ip, stop)
    requires forall j :: 0 <= j < stop ==> !Stops(t, ip, j)
    ensures Probe(t, ip, 0) == stop
  {
    hide Stops;
  }

  /** A search finds `ip` exactly when some slot holds it, and finds that very slot. */
  lemma IntactFinds<R>(t: seq<Slot<R>>, ip: Ip, p: nat)
    requires |t| == 64 && Intact(t, ip) && p < 64
    ensures t[p].used && t[p].ip == ip <==> Find(t, ip) == Some(p)
  {
    hide Home;
    if t[p].used && t[p].ip == ip {
      var i := Offset(ip, p);
      assert Holds(t, ip, i);
      ProbeIs(t, ip, i);
    }
  }

  /** Writing a record: its key reads back, every other intact key reads as before. */
  lemma PutLookup<R>(t: seq<Slot<R>>, ip: Ip, rec: R, other: Ip)
    requires |t| == 64 && Target(t, ip).Some?
    ensures Lookup(Put(t, ip, rec), ip) == Some(rec)
    ensures other != ip && Intact(t, other) ==> Lookup(Put(t, ip, rec), other) == Lookup(t, other)
  {
    hide Home;
    var t' := Put(t, ip, rec);
    var i := Probe(t, ip, 0);
    PutPath(t, ip, rec, ip);
    ProbeIs(t', ip, i);
    if other != ip && Intact(t, other) {
      PutPath(t, ip, rec, other);
      PutIntact(t, ip, rec, other);
      match Find(t, other)
      case Some(p) =>
        ProbeIs(t', other, Probe(t, other, 0));
      case None =>
        if Find(t', other).Some? {
          IntactFinds(t, other, Find(t', other).value);
        }
    }
  }

  /** A write leaves every offset on which another key's search went past exactly as impassable. */
  lemma PutPath<R>(t: seq<Slot<R>>, ip: Ip, rec: R, key: Ip)
    requires |t| == 64 && Target(t, ip).Some?
    ensures forall j :: 0 <= j < 64 && !Stops(t, key, j) && (key != ip || j < Probe(t, ip, 0)) ==>
              !Stops(Put(t, ip, rec), key, j)
  {
    hide Home, Pos;
    var i := Probe(t, ip, 0);
    forall j | 0 <= j < 64 && !Stops(t, key, j) && (key != ip || j < i)
      ensures !Stops(Put(t, ip, rec), key, j)
    {
      if Pos(key, j) == Pos(ip, i) && key == ip {
        PosInjective(ip, i, j);
      }
    }
  }

  lemma PutIntact<R>(t: seq<Slot<R>>, ip: Ip, rec: R, key: Ip)
    requires |t| == 64 && Intact(t, key)
    ensures Intact(Put(t, ip, rec), key)
  {
    hide Home;
    var t' := Put(t, ip, rec);
    if Target(t, ip).Some? {
      var s := Probe(t, ip, 0);
      PutPath(t, ip, rec, key);
      forall i | 0 <= i < 64 && Holds(t', key, i)
        ensures forall j :: 0 <= j < i ==> !Stops(t', key, j)
      {
        if Pos(key, i) == Pos(ip, s) {
          assert key == ip;
          PosInjective(ip, i, s);
        } else {
          assert Holds(t, key, i);
          if key == ip {
            ProbeIs(t, ip, i);
          }
        }
      }
    }
  }

  /** t' is t with some slots freed. */
  ghost predicate Frees<R>(t: seq<Slot<R>>, t': seq<Slot<R>>) {
    && |t| == |t'| == 64
    && forall p :: 0 <= p < 64 ==> t'[p] == t[p] || (t[p].used && t'[p] == t[p].(used := false))
  }

  /** Some slot that is freed lies on the path of an entry of `ip` that is not. */
  ghost predicate Severs<R>(t: seq<Slot<R>>, t': seq<Slot<R>>, ip: Ip)
    requires |t| == |t'| == 64
  {
    exists i, j :: 0 <= j < i < 64 && Survives(t, t', ip, i) && Freed(t, t', Pos(ip, j))
  }

  ghost predicate Survives<R>(t: seq<Slot<R>>, t': seq<Slot<R>>, ip: Ip, i: nat)
    requires |t| == |t'| == 64
  {
    Holds(t, ip, i) && t'[Pos(ip, i)].used
  }

  ghost predicate Freed<R>(t: seq<Slot<R>>, t': seq<Slot<R>>, p: nat)
    requires |t| == |t'| == 64 && p < 64
  {
    t[p].used && !t'[p].used
  }

  /** Freeing slots keeps the probe-path invariant of a key exactly when no slot it frees lies on
      the path of an entry of that key which it keeps. */
  lemma FreeIntact<R>(t: seq<Slot<R>>, t': seq<Slot<R>>, ip: Ip)
    requires Frees(t, t') && Intact(t, ip)
    ensures Intact(t', ip) <==> !Severs(t, t', ip)
  {
    hide Pos;
    if !Severs(t, t', ip) {
      forall i, j | 0 <= i < 64 && Holds(t', ip, i) && 0 <= j < i
        ensures !Stops(t', ip, j)
      {
        assert Survives(t, t', ip, i) && !Stops(t, ip, j) && !Freed(t, t', Pos(ip, j));
      }
    }
    if Intact(t', ip) {
      forall i, j | 0 <= j < i < 64 && Survives(t, t', ip, i)
        ensures !Freed(t, t', Pos(ip, j))
      {
        assert Holds(t', ip, i) && !Stops(t', ip, j);
      }
    }
  }

  /** What a search returns after freeing: the old answer if its slot survived, else nothing. */
  lemma FreeLookup<R>(t: seq<Slot<R>>, t': seq<Slot<R>>, ip: Ip)
    requires Frees(t, t') && Intact(t, ip) && !Severs(t, t', ip)
    ensures Find(t', ip) == if Find(t, ip).Some? && t'[Find(t, ip).value].used then Find(t, ip) else None
  {
    hide Severs;
    FreeIntact(t, t', ip);
    if Find(t', ip).Some? {
      IntactFinds(t, ip, Find(t', ip).value);
    }
    if Find(t, ip).Some? {
      IntactFinds(t', ip, Find(t, ip).value);
    }
  }

  lemma StopsMeans<R>(t: seq<Slot<R>>, ip: Ip)
    requires |t| == 64
    ensures forall i :: 0 <= i < 64 ==> (Stops(t, ip, i) <==> !t[Pos(ip, i)].used || t[Pos(ip, i)].ip == ip)
  {
    hide Pos;
  }

  /** And when a path is severed: nothing, and the next write goes to the slot that was freed first. */
  lemma SeveredLookup<R>(t: seq<Slot<R>>, t': seq<Slot<R>>, ip: Ip)
    requires Frees(t, t') && Intact(t, ip) && Severs(t, t', ip)
    ensures Find(t', ip).None? && Target(t', ip).Some? && Find(t, ip).Some? && Target(t', ip) != Find(t, ip)
  {
    hide Pos, Stops, Intact;
    var i, j :| 0 <= j < i < 64 && Survives(t, t', ip, i) && Freed(t, t', Pos(ip, j));
    SeveredProbe(t, t', ip, i, j);
  }

  /** The search ends early, in a slot that is free. */
  lemma SeveredProbe<R>(t: seq<Slot<R>>, t': seq<Slot<R>>, ip: Ip, i: nat, j: nat)
    requires Frees(t, t') && Intact(t, ip)
    requires j < i < 64 && Survives(t, t', ip, i) && Freed(t, t', Pos(ip, j))
    ensures Probe(t, ip, 0) == i && Probe(t', ip, 0) < i && !t'[Pos(ip, Probe(t', ip, 0))].used
  {
    hide Pos, Stops, Probe;
    StopsMeans(t, ip);
    StopsMeans(t', ip);
    ProbeIs(t, ip, i);
    assert Stops(t', ip, j);
    var stop := Probe(t', ip, 0);
    assert stop <= j && !Stops(t, ip, stop);
  }

  // ---- the table as a map -------------------------------------------------------------

  ghost function KeysUpTo<R>(t: seq<Slot<R>>, n: nat): set<Ip>
    requires n <= |t|
  {
    set p | 0 <= p < n && t[p].used :: t[p].ip
  }

  /** The map of all answers the table gives. */
  ghost function AsMap<R>(t: seq<Slot<R>>): (m: map<Ip, R>)
    requires |t| == 64
    ensures forall ip :: Lookup(t, ip) == if ip in m then Some(m[ip]) else None
  {
    map ip | ip in KeysUpTo(t, 64) && Lookup(t, ip).Some? :: Lookup(t, ip).value
  }

  /** Two maps that answer every lookup alike are equal. */
  lemma SameAnswers<R>(t: seq<Slot<R>>, m: map<Ip, R>)
    requires |t| == 64
    requires forall ip :: Lookup(t, ip) == if ip in m then Some(m[ip]) else None
    ensures AsMap(t) == m
  {
    var a := AsMap(t);
    forall ip
      ensures ip in a <==> ip in m
      ensures ip in a ==> a[ip] == m[ip]
    {
      assert Lookup(t, ip) == if ip in a then Some(a[ip]) else None;
    }
  }

  lemma PutAsMap<R>(t: seq<Slot<R>>, ip: Ip, rec: R)
    requires |t| == 64 && AllIntact(t) && Target(t, ip).Some?
    ensures AsMap(Put(t, ip, rec)) == AsMap(t)[ip := rec] && AllIntact(Put(t, ip, rec))
  {
    forall key
      ensures Lookup(Put(t, ip, rec), key)
           == if key in AsMap(t)[ip := rec] then Some(AsMap(t)[ip := rec][key]) else None
      ensures Intact(Put(t, ip, rec), key)
    {
      PutLookup(t, ip, rec, key);
      PutIntact(t, ip, rec, key);
    }
    SameAnswers(Put(t, ip, rec), AsMap(t)[ip := rec]);
  }

  /** A write is refused exactly when the key is new and the map already has 64 keys. */
  lemma FullIffMapFull<R>(t: seq<Slot<R>>, ip: Ip)
    requires |t| == 64 && AllIntact(t)
    ensures Target(t, ip).None? <==> ip !in AsMap(t) && |AsMap(t)| == 64
  {
    MapKeys(t);
    KeyCount(t, 64);
    if Target(t, ip).None? {
      forall p | 0 <= p < 64
        ensures t[p].used && t[p].ip != ip
      {
        assert !Stops(t, ip, Offset(ip, p));
      }
    } else if ip !in AsMap(t) {
      var p := Target(t, ip).value;
      assert !t[p].used by {
        assert Lookup(t, ip).None?;
      }
    }
  }

  lemma MapKeys<R>(t: seq<Slot<R>>)
    requires |t| == 64 && AllIntact(t)
    ensures AsMap(t).Keys == KeysUpTo(t, 64) && |AsMap(t)| == |KeysUpTo(t, 64)|
  {
    forall ip
      ensures ip in AsMap(t) <==> ip in KeysUpTo(t, 64)
    {
      if ip in KeysUpTo(t, 64) {
        var p :| 0 <= p < 64 && t[p].used && t[p].ip == ip;
        assert Intact(t, ip);
        IntactFinds(t, ip, p);
      }
    }
  }

  lemma DistinctKeys<R>(t: seq<Slot<R>>, p: nat, q: nat)
    requires |t| == 64 && AllIntact(t) && p < q < 64 && t[p].used && t[q].used
    ensures t[p].ip != t[q].ip
  {
    assert Intact(t, t[p].ip);
    IntactFinds(t, t[p].ip, p);
    IntactFinds(t, t[p].ip, q);
  }

  ghost predicate UsedUpTo<R>(t: seq<Slot<R>>, n: nat)
    requires n <= |t|
  {
    forall p :: 0 <= p < n ==> t[p].used
  }

  /** With distinct keys the first n slots hold n keys exactly when all of them are used. */
  lemma {:induction false} KeyCount<R>(t: seq<Slot<R>>, n: nat)
    requires |t| == 64 && AllIntact(t) && n <= 64
    ensures |KeysUpTo(t, n)| <= n
    ensures |KeysUpTo(t, n)| == n <==> UsedUpTo(t, n)
  {
    hide AllIntact;
    if n > 0 {
      KeyCount(t, n - 1);
      NextKey(t, n - 1);
      assert UsedUpTo(t, n) <==> UsedUpTo(t, n - 1) && t[n - 1].used;
    }
  }

  lemma NextKey<R>(t: seq<Slot<R>>, n: nat)
    requires |t| == 64 && AllIntact(t) && n < 64
    ensures |KeysUpTo(t, n + 1)| == |KeysUpTo(t, n)| + if t[n].used then 1 else 0
  {
    hide AllIntact;
    if t[n].used {
      forall p | 0 <= p < n && t[p].used
        ensures t[p].ip != t[n].ip
      {
        DistinctKeys(t, p, n);
      }
      assert KeysUpTo(t, n + 1) == KeysUpTo(t, n) + {t[n].ip};
    } else {
      assert KeysUpTo(t, n + 1) == KeysUpTo(t, n);
    }
  }
}
