/**
  Making room for a new record (cache_insert in external/dnsmasq/src/cache.c): what leaves the chains and why, when a
  record at the tail of the LRU list is free afterwards, and when a live record has to go.
 */
module CacheRoom {
  import opened Options
  import opened Lists
  import opened CacheState
  import opened CacheLookup
  import opened CacheInsert
  import opened CacheSweep

  // ----- what leaves the chains, and why -----

  /** A serial number changes only in the pool, and only to a new one. */
  predicate UidAt(f: Fixed, s: State, t: State, id: Id)
    requires id in s.recs && id in t.recs
  {
    t.recs[id].uid == s.recs[id].uid || (id in f.pool && t.recs[id].uid >= s.uid)
  }

  /** A record of chain c is still there and unchanged, or it left because it was expired, outdated by then, or for the reason given. */
  predicate ThinnedAt(s: State, t: State, now: int, why: Rec -> bool, c: nat, id: Id)
    requires c < |s.table| == |t.table|
  {
    && (id in t.table[c] ==> id in s.table[c] && id in s.recs && id in t.recs && t.recs[id] == s.recs[id])
    && (id in s.table[c] && id !in t.table[c] ==>
          id in s.recs && (Expired(s.recs[id], now) || Outdated(t.recs, s.recs[id]) || why(s.recs[id])))
  }

  ghost predicate Thinned(f: Fixed, s: State, t: State, now: int, why: Rec -> bool) {
    && t.recs.Keys == s.recs.Keys && |t.table| == |s.table| && s.uid <= t.uid
    && (forall id | id in s.recs :: UidAt(f, s, t, id))
    && forall c, id | 0 <= c < |s.table| :: ThinnedAt(s, t, now, why, c, id)
  }

  ghost function ThinnedFrom(f: Fixed, s: State, now: int, why: Rec -> bool): State -> bool {
    t => Thinned(f, s, t, now, why)
  }

  function Either(p: Rec -> bool, q: Rec -> bool): Rec -> bool {
    (r: Rec) => p(r) || q(r)
  }

  /** Once outdated, always outdated. */
  lemma StaysOutdated(f: Fixed, s: State, t: State, u: State, id: Id)
    requires UidOk(f, s) && id in s.recs && t.recs.Keys == s.recs.Keys && u.recs.Keys == s.recs.Keys && s.uid <= t.uid
    requires Outdated(t.recs, s.recs[id]) && forall x | x in t.recs :: UidAt(f, t, u, x)
    ensures Outdated(u.recs, s.recs[id])
  {
    var r := s.recs[id];
    if r.target.Some? && r.target.value in s.recs {
      assert UidAt(f, t, u, r.target.value);
      assert r.target.value in f.pool ==> PooledTarget(f, r);
    }
  }

  lemma ThinnedTwice(f: Fixed, s: State, t: State, u: State, now: int, p: Rec -> bool, q: Rec -> bool)
    requires UidOk(f, s) && ThinnedFrom(f, s, now, p)(t) && ThinnedFrom(f, t, now, q)(u)
    ensures ThinnedFrom(f, s, now, Either(p, q))(u)
  {
    forall id | id in s.recs ensures UidAt(f, s, u, id) {
      assert UidAt(f, s, t, id) && UidAt(f, t, u, id);
    }
    forall c, id | 0 <= c < |s.table| ensures ThinnedAt(s, u, now, Either(p, q), c, id) {
      assert ThinnedAt(s, t, now, p, c, id) && ThinnedAt(t, u, now, q, c, id);
      if id in s.table[c] && id !in t.table[c] && Outdated(t.recs, s.recs[id]) {
        StaysOutdated(f, s, t, u, id);
      }
    }
  }

  lemma ThinnedMore(f: Fixed, s: State, t: State, now: int, p: Rec -> bool, q: Rec -> bool)
    requires ThinnedFrom(f, s, now, p)(t) && forall r: Rec :: p(r) ==> q(r)
    ensures ThinnedFrom(f, s, now, q)(t)
  {
    forall c, id | 0 <= c < |s.table| ensures ThinnedAt(s, t, now, q, c, id) {
      assert ThinnedAt(s, t, now, p, c, id);
    }
  }

  lemma ThinnedSelf(f: Fixed, s: State, now: int, why: Rec -> bool)
    requires TableOk(f, s)
    ensures ThinnedFrom(f, s, now, why)(s)
  {
    forall c, id | 0 <= c < |s.table| ensures ThinnedAt(s, s, now, why, c, id) {
      assert ChainOk(f, s.recs, |s.table|, s.table[c], c);
    }
  }

  /** What cache_scan_free removes beside dead records: pooled ones of the name, or of the address. */
  function Victim(name: string, addr: seq<int>, flags: set<Flag>): Rec -> bool {
    (r: Rec) =>
      && !Local(r)
      && if Forward in flags then Replaces(r, name, flags)
         else Reverse in flags && Reverse in r.flags && flags * r.flags * {IPv4, IPv6} != {} && r.addr == addr
  }

  /** A sweep of the chain of a name. */
  function NameSwept(f: Fixed, s: State, name: string, now: int, flags: set<Flag>): State
    requires |s.table| > 0 && AllIn(s.recs, s.table[Bucket(f.mix, |s.table|, name)])
  {
    var b := Bucket(f.mix, |s.table|, name);
    Partway(s, b, SweepOf(s.recs, NameJudge(s.recs, name, now, flags), s.table[b]).p, [])
  }

  lemma NameThinsAt(f: Fixed, s: State, name: string, addr: seq<int>, now: int, flags: set<Flag>, i: nat)
    requires Inv(f, s) && Forward in flags && i < |s.table[Bucket(f.mix, |s.table|, name)]|
    requires AllIn(s.recs, s.table[Bucket(f.mix, |s.table|, name)])
    ensures var b, t := Bucket(f.mix, |s.table|, name), NameSwept(f, s, name, now, flags);
            ThinnedAt(s, t, now, Victim(name, addr, flags), b, s.table[b][i])
  {
    var b, t := Bucket(f.mix, |s.table|, name), NameSwept(f, s, name, now, flags);
    var chain, judge := s.table[b], NameJudge(s.recs, name, now, flags);
    var id, w, v := chain[i], SweepOf(s.recs, judge, chain), SweepOf(s.recs, judge, chain[..i]);
    assert ChainOk(f, s.recs, |s.table|, chain, b);
    NameSweepExact(s.recs, name, now, flags, chain);
    assert w.p.kept + [] == w.p.kept;
    RefreedAt(s.recs, w.p.freed, s.uid, id);
    if DropsAt(s.recs, name, now, flags, chain, i) && Dead(s.recs, now, v.p.freed, id) && !Expired(s.recs[id], now) {
      FreedGrows(s.recs, judge, chain, i);
      DeadIsOutdated(f, s, w.p.freed, id);
    }
  }

  lemma {:induction false} FreedGrows(recs: map<Id, Rec>, judge: Judge, chain: seq<Id>, i: nat)
    requires AllIn(recs, chain) && i <= |chain|
    ensures forall x | x in SweepOf(recs, judge, chain[..i]).p.freed :: x in SweepOf(recs, judge, chain).p.freed
  {
    var n := |chain| - 1;
    if i == |chain| {
      assert chain[..i] == chain;
    } else {
      assert chain[..n][..i] == chain[..i];
      FreedGrows(recs, judge, chain[..n], i);
    }
  }

  /** A CNAME that was outdated, or whose target has been freed, is outdated afterwards. */
  lemma DeadIsOutdated(f: Fixed, s: State, freed: seq<Id>, id: Id)
    requires UidOk(f, s) && AllIn(s.recs, freed) && id in s.recs && (forall x | x in freed :: x in f.pool)
    requires var r := s.recs[id]; Outdated(s.recs, r) || (Cname in r.flags && r.target.Some? && r.target.value in freed)
    ensures Outdated(Refreed(s.recs, freed, s.uid), s.recs[id])
  {
    var r := s.recs[id];
    if r.target.Some? && r.target.value in s.recs {
      RefreedAt(s.recs, freed, s.uid, r.target.value);
      assert r.target.value in f.pool ==> PooledTarget(f, r);
    }
  }

  lemma FreedIsPooled(f: Fixed, s: State, b: nat, judge: Judge)
    requires Inv(f, s) && b < |s.table| && AllIn(s.recs, s.table[b])
    ensures forall x | x in SweepOf(s.recs, judge, s.table[b]).p.freed :: x in f.pool && x in s.lru
  {
    forall x | x in SweepOf(s.recs, judge, s.table[b]).p.freed ensures x in f.pool && x in s.lru {
      assert x in s.table[b] && !Local(s.recs[x]);
    }
  }

  lemma NameThins(f: Fixed, s: State, name: string, addr: seq<int>, now: int, flags: set<Flag>)
    requires Inv(f, s) && Forward in flags && AllIn(s.recs, s.table[Bucket(f.mix, |s.table|, name)])
    ensures ThinnedFrom(f, s, now, Victim(name, addr, flags))(NameSwept(f, s, name, now, flags))
  {
    var b, t := Bucket(f.mix, |s.table|, name), NameSwept(f, s, name, now, flags);
    var judge := NameJudge(s.recs, name, now, flags);
    var w := SweepOf(s.recs, judge, s.table[b]);
    FreedIsPooled(f, s, b, judge);
    assert w.p.kept + [] == w.p.kept;
    KeptSeen(s.recs, judge, s.table[b]);
    ChainsDisjoint(f, s);
    forall id | id in s.recs ensures UidAt(f, s, t, id) && (id !in w.p.freed ==> t.recs[id] == s.recs[id]) {
      RefreedAt(s.recs, w.p.freed, s.uid, id);
    }
    forall c, id | 0 <= c < |s.table| ensures ThinnedAt(s, t, now, Victim(name, addr, flags), c, id) {
      assert ChainOk(f, s.recs, |s.table|, s.table[c], c);
      if c == b && id in s.table[b] {
        var i := IndexOf(s.table[b], id);
        NameThinsAt(f, s, name, addr, now, flags, i);
      }
    }
  }

  /** A sweep of the whole table. */
  lemma AllThins(f: Fixed, s: State, t: State, name: string, addr: seq<int>, now: int, flags: set<Flag>)
    requires Inv(f, s) && Forward !in flags && SweptBelow(s, t, |s.table|, Stale(addr, now, flags))
    ensures ThinnedFrom(f, s, now, Victim(name, addr, flags))(t)
  {
    forall id | id in s.recs ensures UidAt(f, s, t, id) {
      assert UidKept(s, t, id);
    }
    forall c, id | 0 <= c < |s.table| ensures ThinnedAt(s, t, now, Victim(name, addr, flags), c, id) {
      assert SweptAt(s, t, |s.table|, Stale(addr, now, flags), c);
    }
  }

  // ----- when there is room -----

  /** A record of the pool is free. */
  predicate HasFree(s: State) {
    exists id | id in s.lru :: id in s.recs && !InUse(s.recs[id])
  }

  lemma TailIsFree(f: Fixed, s: State)
    requires Inv(f, s) && s.lru != []
    ensures AllIn(s.recs, s.lru) && (!InUse(s.recs[s.lru[|s.lru| - 1]]) <==> HasFree(s))
  {
    assert forall id | id in s.lru :: id in Elems(s.lru);
    var tail := s.lru[|s.lru| - 1];
    assert tail in s.lru;
  }

  /** Two states with the same new chain have the same pooled records on their LRU lists. */
  lemma SameLru(f: Fixed, s: State, t: State)
    requires PoolOk(f, s) && PoolOk(f, t) && t.newChain == s.newChain
    ensures forall id :: id in s.lru <==> id in t.lru
  {
    assert Elems(s.lru) == f.pool - Elems(s.newChain) == Elems(t.lru);
    assert forall id :: (id in s.lru <==> id in Elems(s.lru)) && (id in t.lru <==> id in Elems(t.lru));
  }

  /** A record in use on the LRU list is stale. */
  predicate HasStale(s: State, addr: seq<int>, now: int, flags: set<Flag>) {
    exists id | id in s.lru :: id in s.recs && InUse(s.recs[id]) && Stale(addr, now, flags)(s.recs[id])
  }

  lemma StaleGoes(f: Fixed, s: State, t: State, addr: seq<int>, now: int, flags: set<Flag>, id: Id)
    requires Inv(f, s) && Inv(f, t) && SweptBelow(s, t, |s.table|, Stale(addr, now, flags)) && id in s.lru && id in s.recs && id in t.lru
    ensures id in t.recs
    ensures InUse(t.recs[id]) <==> InUse(s.recs[id]) && !Stale(addr, now, flags)(s.recs[id])
  {
    if InUse(t.recs[id]) {
      var c := Bucket(f.mix, |t.table|, t.recs[id].name);
      assert Hashed(f, t, id) && SweptAt(s, t, |s.table|, Stale(addr, now, flags), c);
      assert ChainOk(f, s.recs, |s.table|, s.table[c], c);
    }
    if InUse(s.recs[id]) && !Stale(addr, now, flags)(s.recs[id]) {
      assert Spared(Stale(addr, now, flags), s.recs[id]);
    }
  }

  /** After a sweep of the whole table there is a free record if there was one, or a stale one. */
  lemma AllFrees(f: Fixed, s: State, t: State, addr: seq<int>, now: int, flags: set<Flag>)
    requires Inv(f, s) && Inv(f, t) && SweptBelow(s, t, |s.table|, Stale(addr, now, flags))
    ensures HasFree(t) <==> HasFree(s) || HasStale(s, addr, now, flags)
  {
    SameLru(f, s, t);
    assert forall id | id in s.lru :: id in Elems(s.lru);
    forall id | id in s.lru
      ensures id in t.lru && id in t.recs && (InUse(t.recs[id]) <==> InUse(s.recs[id]) && !Stale(addr, now, flags)(s.recs[id]))
    {
      StaleGoes(f, s, t, addr, now, flags, id);
    }
  }

  /** After a sweep of the chain of a name there is a free record if there was one, or if one was freed. */
  lemma NameFrees(f: Fixed, s: State, name: string, now: int, flags: set<Flag>)
    requires Inv(f, s) && AllIn(s.recs, s.table[Bucket(f.mix, |s.table|, name)]) && Inv(f, NameSwept(f, s, name, now, flags))
    ensures var b := Bucket(f.mix, |s.table|, name);
            HasFree(NameSwept(f, s, name, now, flags))
            <==> HasFree(s) || SweepOf(s.recs, NameJudge(s.recs, name, now, flags), s.table[b]).p.freed != []
  {
    var b, t := Bucket(f.mix, |s.table|, name), NameSwept(f, s, name, now, flags);
    var freed := SweepOf(s.recs, NameJudge(s.recs, name, now, flags), s.table[b]).p.freed;
    FreedIsPooled(f, s, b, NameJudge(s.recs, name, now, flags));
    SameLru(f, s, t);
    forall id | id in s.recs ensures if id in freed then !InUse(t.recs[id]) else t.recs[id] == s.recs[id] {
      RefreedAt(s.recs, freed, s.uid, id);
    }
    if freed != [] {
      assert freed[0] in freed;
    }
  }

  // ----- when a live record can be thrown out -----

  /** Goes in a sweep of the name, as long as nothing has been freed before it. */
  predicate Goes(recs: map<Id, Rec>, r: Rec, name: string, now: int, flags: set<Flag>) {
    !Local(r) && (Expired(r, now) || Outdated(recs, r) || Replaces(r, name, flags))
  }

  /** Protected from replacement: a live record of a hosts file or a lease. */
  predicate Protected(recs: map<Id, Rec>, r: Rec, name: string, now: int, flags: set<Flag>) {
    Local(r) && Replaces(r, name, flags) && !Expired(r, now) && !Outdated(recs, r)
  }

  /** A pooled record of the chain goes, and no protected one stands before it. */
  predicate Spills(recs: map<Id, Rec>, chain: seq<Id>, name: string, now: int, flags: set<Flag>)
    requires AllIn(recs, chain)
  {
    exists i | 0 <= i < |chain| ::
      Goes(recs, recs[chain[i]], name, now, flags) && forall j | 0 <= j < i :: !Protected(recs, recs[chain[j]], name, now, flags)
  }

  /** A sweep of the name frees a record if and only if one goes before it meets a protected one. */
  lemma {:induction false} SpillsExact(recs: map<Id, Rec>, chain: seq<Id>, name: string, now: int, flags: set<Flag>)
    requires AllIn(recs, chain)
    ensures var w := SweepOf(recs, NameJudge(recs, name, now, flags), chain);
            && (w.p.freed != [] <==> Spills(recs, chain, name, now, flags))
            && (w.p.freed == [] ==>
                  (w.stopped <==> exists j | 0 <= j < |chain| :: Protected(recs, recs[chain[j]], name, now, flags)))
  {
    if chain != [] {
      var n := |chain| - 1;
      var front, r := chain[..n], recs[chain[n]];
      SpillsExact(recs, front, name, now, flags);
      SpillsLast(recs, chain, name, now, flags);
      var w := SweepOf(recs, NameJudge(recs, name, now, flags), front);
      assert forall j | 0 <= j < n :: recs[front[j]] == recs[chain[j]];
      if w.p.freed == [] {
        assert (exists j | 0 <= j < |chain| :: Protected(recs, recs[chain[j]], name, now, flags))
          <==> (exists j | 0 <= j < n :: Protected(recs, recs[front[j]], name, now, flags)) || Protected(recs, r, name, now, flags);
      }
    }
  }

  lemma SpillsLast(recs: map<Id, Rec>, chain: seq<Id>, name: string, now: int, flags: set<Flag>)
    requires AllIn(recs, chain) && chain != []
    ensures var n := |chain| - 1;
            Spills(recs, chain, name, now, flags)
            <==> Spills(recs, chain[..n], name, now, flags)
                 || (Goes(recs, recs[chain[n]], name, now, flags) && NoProtected(recs, chain[..n], name, now, flags))
  {
    var n := |chain| - 1;
    var front := chain[..n];
    assert forall j | 0 <= j < n :: front[j] == chain[j];
    if Spills(recs, front, name, now, flags) {
      var i :| 0 <= i < n && Goes(recs, recs[front[i]], name, now, flags)
               && forall j | 0 <= j < i :: !Protected(recs, recs[front[j]], name, now, flags);
      assert Goes(recs, recs[chain[i]], name, now, flags);
    }
  }

  /** The tail of the LRU list can be thrown out, or at least something that its name or address brings up. */
  predicate CanSpill(f: Fixed, s: State, now: int) {
    && |s.table| > 0 && s.lru != [] && s.lru[|s.lru| - 1] in s.recs
    && var r := s.recs[s.lru[|s.lru| - 1]];
       var chain := s.table[Bucket(f.mix, |s.table|, r.name)];
       if Forward in r.flags then AllIn(s.recs, chain) && Spills(s.recs, chain, r.name, now, r.flags)
       else HasStale(s, r.addr, now, r.flags)
  }

  /** An insert finds a free record: there is one, or one expires in time, or the tail can be thrown out. */
  predicate Room(f: Fixed, s: State, now: int, swept: bool) {
    s.lru != [] && (HasFree(s) || (!swept && !NoneExpired(s, now)) || CanSpill(f, s, now))
  }

  /** A live record is thrown out if and only if none is free and, unless they were not looked for, none has expired. */
  predicate MustSpill(s: State, now: int, swept: bool) {
    s.lru != [] && !HasFree(s) && (swept || NoneExpired(s, now))
  }

  /** A protected record of the tail's name stands in its chain before every record that goes. */
  predicate Blocked(f: Fixed, s: State, now: int) {
    && |s.table| > 0 && s.lru != [] && s.lru[|s.lru| - 1] in s.recs
    && var r := s.recs[s.lru[|s.lru| - 1]];
       var chain := s.table[Bucket(f.mix, |s.table|, r.name)];
       && Forward in r.flags && AllIn(s.recs, chain)
       && exists j | 0 <= j < |chain| :: BlocksAt(s.recs, chain, r.name, now, r.flags, j)
  }

  predicate BlocksAt(recs: map<Id, Rec>, chain: seq<Id>, name: string, now: int, flags: set<Flag>, j: nat)
    requires AllIn(recs, chain) && j < |chain|
  {
    && Protected(recs, recs[chain[j]], name, now, flags)
    && forall i | 0 <= i < |chain| && Goes(recs, recs[chain[i]], name, now, flags) :: j < i
  }

  /** The tail of a full cache is in use, typed and in the chain of its name, and goes in a sweep for its own name. */
  lemma TailGoes(f: Fixed, s: State, now: int) returns (i: nat)
    requires Inv(f, s) && s.lru != [] && !HasFree(s)
    ensures s.lru[|s.lru| - 1] in s.recs
    ensures var r := s.recs[s.lru[|s.lru| - 1]];
            var chain := s.table[Bucket(f.mix, |s.table|, r.name)];
            && AllIn(s.recs, chain) && InUse(r) && Typed(r) && !Local(r) && i < |chain| && chain[i] == s.lru[|s.lru| - 1]
            && (Forward in r.flags ==> Goes(s.recs, r, r.name, now, r.flags))
            && (Forward !in r.flags ==> Stale(r.addr, now, r.flags)(r))
  {
    TailIsFree(f, s);
    var tail := s.lru[|s.lru| - 1];
    var r := s.recs[tail];
    var b := Bucket(f.mix, |s.table|, r.name);
    assert tail in s.lru && tail in Elems(s.lru) && Hashed(f, s, tail) && ChainOk(f, s.recs, |s.table|, s.table[b], b);
    i := IndexOf(s.table[b], tail);
    assert IPv4 in r.flags ==> IPv4 in r.flags * r.flags * {IPv4, IPv6};
    assert IPv6 in r.flags ==> IPv6 in r.flags * r.flags * {IPv4, IPv6};
  }

  lemma {:induction false} SpillsUnlessBlocked(recs: map<Id, Rec>, chain: seq<Id>, name: string, now: int, flags: set<Flag>, i: nat)
    requires AllIn(recs, chain) && i < |chain| && Goes(recs, recs[chain[i]], name, now, flags)
    ensures Spills(recs, chain, name, now, flags) <==> !exists j | 0 <= j < |chain| :: BlocksAt(recs, chain, name, now, flags, j)
    decreases i
  {
    if !Spills(recs, chain, name, now, flags) {
      var j :| 0 <= j < i && Protected(recs, recs[chain[j]], name, now, flags);
      if k :| 0 <= k < j && Goes(recs, recs[chain[k]], name, now, flags) {
        SpillsUnlessBlocked(recs, chain, name, now, flags, k);
      } else {
        assert BlocksAt(recs, chain, name, now, flags, j);
      }
    }
  }

  /**
    Throwing out the tail of a full cache fails if and only if a protected record of its name stands in its chain before
    every record that goes.
   */
  lemma SpillFailsExactly(f: Fixed, s: State, now: int)
    requires Inv(f, s) && s.lru != [] && !HasFree(s)
    ensures CanSpill(f, s, now) <==> !Blocked(f, s, now)
  {
    var i := TailGoes(f, s, now);
    var tail := s.lru[|s.lru| - 1];
    var r := s.recs[tail];
    if Forward in r.flags {
      SpillsUnlessBlocked(s.recs, s.table[Bucket(f.mix, |s.table|, r.name)], r.name, now, r.flags, i);
    } else {
      assert tail in s.lru;
    }
  }

  // ----- one call of cache_scan_free -----

  /** The state after cache_scan_free. */
  ghost predicate ScanFreed(f: Fixed, s: State, t: State, name: string, addr: seq<int>, now: int, flags: set<Flag>) {
    && Inv(f, t) && NewKept(s, t) && |s.table| > 0
    && if Forward in flags then AllIn(s.recs, s.table[Bucket(f.mix, |s.table|, name)]) && t == NameSwept(f, s, name, now, flags)
       else SweptBelow(s, t, |s.table|, Stale(addr, now, flags)) && (!HasStale(s, addr, now, flags) ==> t.lru == s.lru)
  }

  lemma ScanThins(f: Fixed, s: State, t: State, name: string, addr: seq<int>, now: int, flags: set<Flag>)
    requires Inv(f, s) && ScanFreed(f, s, t, name, addr, now, flags)
    ensures ThinnedFrom(f, s, now, Victim(name, addr, flags))(t)
  {
    if Forward in flags {
      NameThins(f, s, name, addr, now, flags);
    } else {
      AllThins(f, s, t, name, addr, now, flags);
    }
  }

  lemma ScanFrees(f: Fixed, s: State, t: State, name: string, addr: seq<int>, now: int, flags: set<Flag>)
    requires Inv(f, s) && ScanFreed(f, s, t, name, addr, now, flags)
    ensures HasFree(t)
            <==> HasFree(s)
                 || (if Forward in flags then Spills(s.recs, s.table[Bucket(f.mix, |s.table|, name)], name, now, flags)
                     else HasStale(s, addr, now, flags))
  {
    if Forward in flags {
      NameFrees(f, s, name, now, flags);
      SpillsExact(s.recs, s.table[Bucket(f.mix, |s.table|, name)], name, now, flags);
    } else {
      AllFrees(f, s, t, addr, now, flags);
    }
  }

  /** The scan for the tail frees a record if and only if the tail can be thrown out. */
  lemma SpillFrees(f: Fixed, s: State, t: State, now: int)
    requires Inv(f, s) && s.lru != [] && s.lru[|s.lru| - 1] in s.recs && !HasFree(s)
    requires var r := s.recs[s.lru[|s.lru| - 1]]; ScanFreed(f, s, t, r.name, r.addr, now, r.flags)
    ensures HasFree(t) <==> CanSpill(f, s, now)
  {
    var r := s.recs[s.lru[|s.lru| - 1]];
    ScanFrees(f, s, t, r.name, r.addr, now, r.flags);
  }

  // ----- removing expired records first does not matter for the tail -----

  predicate SameUids(s: State, t: State) {
    t.recs.Keys == s.recs.Keys && forall id | id in s.recs :: t.recs[id].uid == s.recs[id].uid
  }

  /** If no pooled record has expired, removing the expired ones changes no record that is in use. */
  lemma NothingFreed(f: Fixed, s: State, t: State, now: int)
    requires Inv(f, s) && Inv(f, t) && SweptBelow(s, t, |s.table|, Stale([], now, {})) && NoneExpired(s, now)
    ensures SameUids(s, t)
    ensures forall c, id | 0 <= c < |s.table| && id in s.table[c] :: id in s.recs && t.recs[id] == s.recs[id]
    ensures forall c, id | 0 <= c < |s.table| && id in s.table[c] && id in s.recs && !Local(s.recs[id]) :: !Expired(s.recs[id], now)
  {
    forall c, id | 0 <= c < |s.table| && id in s.table[c]
      ensures id in s.recs && t.recs[id] == s.recs[id] && (!Local(s.recs[id]) ==> !Expired(s.recs[id], now))
    {
      assert ChainOk(f, s.recs, |s.table|, s.table[c], c);
      assert Spared(Stale([], now, {}), s.recs[id]);
    }
    forall id | id in s.recs ensures t.recs[id].uid == s.recs[id].uid {
      assert UidKept(s, t, id);
    }
  }

  lemma {:induction false} SpillsFiltered(recs: map<Id, Rec>, keep: Rec -> bool, chain: seq<Id>, name: string, now: int, flags: set<Flag>)
    requires AllIn(recs, chain) && forall id | id in chain && !keep(recs[id]) :: Local(recs[id]) && Expired(recs[id], now)
    ensures Spills(recs, Filter(recs, keep, chain), name, now, flags) <==> Spills(recs, chain, name, now, flags)
    ensures NoProtected(recs, Filter(recs, keep, chain), name, now, flags) <==> NoProtected(recs, chain, name, now, flags)
  {
    if chain != [] {
      var n := |chain| - 1;
      var front, id := chain[..n], chain[n];
      SpillsFiltered(recs, keep, front, name, now, flags);
      SpillsLast(recs, chain, name, now, flags);
      ProtectedLast(recs, chain, name, now, flags);
      var kept := Filter(recs, keep, front);
      if keep(recs[id]) {
        assert (kept + [id])[..|kept|] == kept;
        SpillsLast(recs, kept + [id], name, now, flags);
        ProtectedLast(recs, kept + [id], name, now, flags);
      } else {
        assert id in chain && kept + [] == kept;
      }
    }
  }

  predicate NoProtected(recs: map<Id, Rec>, chain: seq<Id>, name: string, now: int, flags: set<Flag>)
    requires AllIn(recs, chain)
  {
    forall j | 0 <= j < |chain| :: !Protected(recs, recs[chain[j]], name, now, flags)
  }

  lemma ProtectedLast(recs: map<Id, Rec>, chain: seq<Id>, name: string, now: int, flags: set<Flag>)
    requires AllIn(recs, chain) && chain != []
    ensures var n := |chain| - 1;
            NoProtected(recs, chain, name, now, flags)
            <==> NoProtected(recs, chain[..n], name, now, flags) && !Protected(recs, recs[chain[n]], name, now, flags)
  {
    var n := |chain| - 1;
    assert forall j | 0 <= j < n :: chain[..n][j] == chain[j];
  }

  lemma SameSpills(recs: map<Id, Rec>, recs': map<Id, Rec>, chain: seq<Id>, name: string, now: int, flags: set<Flag>)
    requires AllIn(recs, chain) && recs'.Keys == recs.Keys && (forall id | id in recs :: recs'[id].uid == recs[id].uid)
    requires forall id | id in chain :: recs'[id] == recs[id]
    ensures Spills(recs', chain, name, now, flags) <==> Spills(recs, chain, name, now, flags)
  {
    forall i | 0 <= i < |chain|
      ensures Goes(recs', recs'[chain[i]], name, now, flags) <==> Goes(recs, recs[chain[i]], name, now, flags)
      ensures Protected(recs', recs'[chain[i]], name, now, flags) <==> Protected(recs, recs[chain[i]], name, now, flags)
    {
      assert chain[i] in chain;
    }
  }

  lemma SpillAfterExpiry(f: Fixed, s: State, t: State, now: int)
    requires Inv(f, s) && ScanFreed(f, s, t, "", [], now, {}) && s.lru != [] && !HasFree(s) && NoneExpired(s, now)
    ensures t.lru == s.lru && !HasFree(t) && (CanSpill(f, t, now) <==> CanSpill(f, s, now))
  {
    assert !HasStale(s, [], now, {});
    AllFrees(f, s, t, [], now, {});
    NothingFreed(f, s, t, now);
    TailIsFree(f, s);
    var tail := s.lru[|s.lru| - 1];
    forall id | id in s.lru ensures id in s.recs && t.recs[id] == s.recs[id] {
      assert id in Elems(s.lru) && Hashed(f, s, id);
    }
    var r := s.recs[tail];
    assert tail in s.lru && t.recs[tail] == r;
    if Forward in r.flags {
      ChainAfterExpiry(f, s, t, now, r.name, r.flags);
    } else {
      assert HasStale(s, r.addr, now, r.flags) <==> HasStale(t, r.addr, now, r.flags);
    }
  }

  lemma ChainAfterExpiry(f: Fixed, s: State, t: State, now: int, name: string, flags: set<Flag>)
    requires Inv(f, s) && Inv(f, t) && SweptBelow(s, t, |s.table|, Stale([], now, {})) && NoneExpired(s, now)
    ensures var b := Bucket(f.mix, |s.table|, name);
            && AllIn(s.recs, s.table[b]) && AllIn(t.recs, t.table[b])
            && (Spills(t.recs, t.table[b], name, now, flags) <==> Spills(s.recs, s.table[b], name, now, flags))
  {
    var b, keep := Bucket(f.mix, |s.table|, name), Not(Stale([], now, {}));
    NothingFreed(f, s, t, now);
    assert SweptAt(s, t, |s.table|, Stale([], now, {}), b);
    SpillsFiltered(s.recs, keep, s.table[b], name, now, flags);
    SameSpills(s.recs, t.recs, t.table[b], name, now, flags);
  }

  // ----- the record taken -----

  /** Taking the tail for a new record changes no chain. */
  lemma TakenThins(f: Fixed, s: State, now: int, why: Rec -> bool, flags: set<Flag>, name: string, addr: Option<seq<int>>, ttd: int)
    requires TableOk(f, s) && CanTake(s, name)
    ensures ThinnedFrom(f, s, now, why)(Taken(s, flags, name, addr, ttd))
  {
    var t, tail := Taken(s, flags, name, addr, ttd), s.lru[|s.lru| - 1];
    forall c, id | 0 <= c < |s.table| ensures ThinnedAt(s, t, now, why, c, id) {
      assert ChainOk(f, s.recs, |s.table|, s.table[c], c);
    }
  }

  // ----- the loop that looks for a free record -----

  function NoReason(): Rec -> bool {
    (r: Rec) => false
  }

  /** The reason for which records leave while a free one is looked for: the name or address of the tail, if it is thrown out. */
  function SpillReason(s: State, spilled: bool): Rec -> bool
    requires spilled ==> s.lru != [] && s.lru[|s.lru| - 1] in s.recs
  {
    if spilled then var r := s.recs[s.lru[|s.lru| - 1]]; Victim(r.name, r.addr, r.flags) else NoReason()
  }

  /** Before the first scan, after the scan for expired records, after the scan for the tail. */
  datatype Phase = Fresh | Expiring | Spilling

  /** Where the search that began in s stands in t. */
  ghost predicate Searching(f: Fixed, s: State, t: State, now: int, swept: bool, phase: Phase) {
    && Inv(f, s) && Inv(f, t) && NewKept(s, t)
    && match phase
       case Fresh => t == s
       case Expiring =>
         && !swept && s.lru != [] && !HasFree(s) && ScanFreed(f, s, t, "", [], now, {})
         && (HasFree(t) <==> !NoneExpired(s, now)) && ThinnedFrom(f, s, now, NoReason())(t)
       case Spilling =>
         && MustSpill(s, now, swept) && (HasFree(t) <==> CanSpill(f, s, now))
         && s.lru[|s.lru| - 1] in s.recs && ThinnedFrom(f, s, now, SpillReason(s, true))(t)
  }

  lemma SearchBegins(f: Fixed, s: State, now: int, swept: bool)
    requires Inv(f, s)
    ensures Searching(f, s, s, now, swept, Fresh)
  {
    NewKeptSelf(f, s);
  }

  lemma SearchExpires(f: Fixed, s: State, t: State, now: int)
    requires Searching(f, s, s, now, false, Fresh) && s.lru != [] && !HasFree(s) && ScanFreed(f, s, t, "", [], now, {})
    ensures Searching(f, s, t, now, false, Expiring)
  {
    ScanFrees(f, s, t, "", [], now, {});
    assert HasStale(s, [], now, {}) <==> !NoneExpired(s, now);
    ScanThins(f, s, t, "", [], now, {});
    ThinnedMore(f, s, t, now, Victim("", [], {}), NoReason());
  }

  /** The tail is thrown out at once. */
  lemma SearchSpillsFresh(f: Fixed, s: State, u: State, now: int)
    requires Searching(f, s, s, now, true, Fresh) && s.lru != [] && s.lru[|s.lru| - 1] in s.recs && !HasFree(s)
    requires var r := s.recs[s.lru[|s.lru| - 1]]; ScanFreed(f, s, u, r.name, r.addr, now, r.flags)
    ensures Searching(f, s, u, now, true, Spilling)
  {
    SpillFrees(f, s, u, now);
    var r := s.recs[s.lru[|s.lru| - 1]];
    ScanThins(f, s, u, r.name, r.addr, now, r.flags);
  }

  /** The tail is thrown out after none was found expired. */
  lemma SearchSpillsLate(f: Fixed, s: State, t: State, u: State, now: int)
    requires Searching(f, s, t, now, false, Expiring) && t.lru != [] && t.lru[|t.lru| - 1] in t.recs && !HasFree(t)
    requires var r := t.recs[t.lru[|t.lru| - 1]]; ScanFreed(f, t, u, r.name, r.addr, now, r.flags)
    ensures Searching(f, s, u, now, false, Spilling)
  {
    SpillFrees(f, t, u, now);
    SpillAfterExpiry(f, s, t, now);
    TailSame(f, s, t, now);
    NewKeptTwice(s, t, u);
    LateThins(f, s, t, u, now);
  }

  lemma LateThins(f: Fixed, s: State, t: State, u: State, now: int)
    requires Inv(f, s) && Inv(f, t) && ThinnedFrom(f, s, now, NoReason())(t) && t.lru == s.lru != []
    requires var tail := s.lru[|s.lru| - 1]; tail in s.recs && tail in t.recs && t.recs[tail] == s.recs[tail]
    requires var r := t.recs[t.lru[|t.lru| - 1]]; ScanFreed(f, t, u, r.name, r.addr, now, r.flags)
    ensures ThinnedFrom(f, s, now, SpillReason(s, true))(u)
  {
    var r := t.recs[t.lru[|t.lru| - 1]];
    ScanThins(f, t, u, r.name, r.addr, now, r.flags);
    ThinnedTwice(f, s, t, u, now, NoReason(), Victim(r.name, r.addr, r.flags));
    ThinnedMore(f, s, u, now, Either(NoReason(), Victim(r.name, r.addr, r.flags)), SpillReason(s, true));
  }

  lemma TailSame(f: Fixed, s: State, t: State, now: int)
    requires Inv(f, s) && ScanFreed(f, s, t, "", [], now, {}) && s.lru != [] && !HasFree(s) && NoneExpired(s, now) && t.lru == s.lru
    ensures var tail := s.lru[|s.lru| - 1]; tail in s.recs && tail in t.recs && t.recs[tail] == s.recs[tail]
  {
    TailIsFree(f, s);
    NothingFreed(f, s, t, now);
    var tail := s.lru[|s.lru| - 1];
    assert tail in s.lru && tail in Elems(s.lru) && Hashed(f, s, tail);
  }

  /** When the search is over there is a free record if and only if there was room, and a live one was thrown out only if it had to be. */
  lemma SearchEnds(f: Fixed, s: State, t: State, now: int, swept: bool, phase: Phase)
    requires Searching(f, s, t, now, swept, phase) && (t.lru == [] || HasFree(t) || phase == Spilling)
    ensures (t.lru != [] && HasFree(t) <==> Room(f, s, now, swept)) && (phase == Spilling <==> MustSpill(s, now, swept))
    ensures MustSpill(s, now, swept) ==> s.lru[|s.lru| - 1] in s.recs
    ensures ThinnedFrom(f, s, now, SpillReason(s, MustSpill(s, now, swept)))(t)
  {
    SameLru(f, s, t);
    assert s.lru == [] <==> t.lru == [] by {
      assert s.lru != [] ==> s.lru[0] in t.lru;
      assert t.lru != [] ==> t.lru[0] in s.lru;
    }
    if phase == Fresh {
      ThinnedSelf(f, s, now, NoReason());
    }
  }

  lemma {:induction false} FilterNone(recs: map<Id, Rec>, p: Rec -> bool, ids: seq<Id>)
    requires AllIn(recs, ids) && forall id | id in ids :: !p(recs[id])
    ensures Filter(recs, p, ids) == []
  {
    if ids != [] {
      FilterNone(recs, p, ids[..|ids| - 1]);
    }
  }

  /** Where no pooled record is stale, a sweep leaves the LRU list as it is. */
  lemma QuietStep(f: Fixed, s: State, t: State, n: nat, addr: seq<int>, now: int, flags: set<Flag>, u: State)
    requires Progressing(f, s, t, n, Stale(addr, now, flags)) && n < |t.table| && AllIn(t.recs, t.table[n])
    requires u == Partway(t, n, SweepOf(t.recs, JudgeBy(t.recs, StaleRule(addr, now, flags)), t.table[n]).p, [])
    requires !HasStale(s, addr, now, flags)
    ensures u.lru == t.lru
  {
    RulesStopSafely(addr, now, flags);
    NextOutcome(f, s, t, n, StaleRule(addr, now, flags), Stale(addr, now, flags), Nothing());
    var p := SweepOf(t.recs, JudgeBy(t.recs, StaleRule(addr, now, flags)), t.table[n]).p;
    forall id | id in s.table[n] ensures !OnlyPooled(Stale(addr, now, flags))(s.recs[id]) && !OnlyPooled(Nothing())(s.recs[id]) {
      assert ChainOk(f, s.recs, |s.table|, s.table[n], n);
    }
    FilterNone(s.recs, OnlyPooled(Stale(addr, now, flags)), s.table[n]);
    FilterNone(s.recs, OnlyPooled(Nothing()), s.table[n]);
    MinusNothing(t.lru, Elems(p.hits) + Elems(p.freed));
    assert [] + t.lru + [] == t.lru;
  }

  /** The variables of the loop of cache_insert, whether it is over, and how many rounds it has gone. */
  datatype Hunt = Hunt(freedAll: bool, freeAvail: bool, found: bool, over: bool, rounds: nat)

  function PhaseOf(swept: bool, h: Hunt): Phase {
    if h.freeAvail then Spilling else if h.freedAll && !swept then Expiring else Fresh
  }

  function Pending(h: Hunt): nat {
    (if h.freedAll then 0 else 1) + if h.freeAvail then 0 else 1
  }

  ghost predicate Hunting(f: Fixed, s: State, t: State, now: int, swept: bool, h: Hunt) {
    && Searching(f, s, t, now, swept, PhaseOf(swept, h)) && (swept ==> h.freedAll) && (h.freeAvail ==> h.freedAll)
    && h.rounds + Pending(h) <= (if h.over then 3 else 2)
    && (h.over ==> if h.found then t.lru != [] && HasFree(t) else h.freeAvail && !HasFree(t)) && (h.found ==> h.over)
  }

  lemma HuntBegins(f: Fixed, s: State, now: int, swept: bool)
    requires Inv(f, s)
    ensures Hunting(f, s, s, now, swept, Hunt(swept, false, false, false, 0))
  {
    SearchBegins(f, s, now, swept);
  }

  /** A round that ends the loop. */
  lemma HuntOver(f: Fixed, s: State, t: State, now: int, swept: bool, h: Hunt)
    requires Hunting(f, s, t, now, swept, h) && !h.over && t.lru != []
    ensures t.lru[|t.lru| - 1] in t.recs && (InUse(t.recs[t.lru[|t.lru| - 1]]) <==> !HasFree(t))
    ensures HasFree(t) ==> Hunting(f, s, t, now, swept, h.(found := true, over := true, rounds := h.rounds + 1))
    ensures !HasFree(t) && h.freeAvail ==> Hunting(f, s, t, now, swept, h.(over := true, rounds := h.rounds + 1))
  {
    TailIsFree(f, t);
  }

  lemma HuntExpires(f: Fixed, s: State, t: State, u: State, now: int, h: Hunt)
    requires Hunting(f, s, t, now, false, h) && !h.over && !h.freedAll && t.lru != [] && !HasFree(t)
    requires ScanFreed(f, t, u, "", [], now, {})
    ensures Hunting(f, s, u, now, false, h.(freedAll := true, rounds := h.rounds + 1))
  {
    SearchExpires(f, s, u, now);
  }

  lemma HuntSpills(f: Fixed, s: State, t: State, u: State, now: int, swept: bool, h: Hunt)
    requires Hunting(f, s, t, now, swept, h) && !h.over && h.freedAll && !h.freeAvail && t.lru != [] && !HasFree(t)
    requires t.lru[|t.lru| - 1] in t.recs
    requires var r := t.recs[t.lru[|t.lru| - 1]]; ScanFreed(f, t, u, r.name, r.addr, now, r.flags)
    ensures HuntFrom(f, s, now, swept, h.(freeAvail := true, rounds := h.rounds + 1))(u)
  {
    if swept {
      SearchSpillsFresh(f, s, u, now);
    } else {
      SearchSpillsLate(f, s, t, u, now);
    }
  }

  lemma HuntEnds(f: Fixed, s: State, t: State, now: int, swept: bool, h: Hunt)
    requires Hunting(f, s, t, now, swept, h) && (h.over || t.lru == [])
    ensures Searched(f, s, t, now, swept) && (h.found <==> Room(f, s, now, swept)) && h.rounds <= 3
    ensures h.freeAvail <==> MustSpill(s, now, swept)
  {
    SearchEnds(f, s, t, now, swept, PhaseOf(swept, h));
  }

  // ----- a whole insert -----

  /** The name, if it counts, is not held by a hosts file or a lease. */
  predicate NameFree(f: Fixed, s: State, name: string, now: int, flags: set<Flag>) {
    Forward in flags ==>
      && |s.table| > 0 && AllIn(s.recs, s.table[Bucket(f.mix, |s.table|, name)])
      && !SweepOf(s.recs, NameJudge(s.recs, name, now, flags), s.table[Bucket(f.mix, |s.table|, name)]).stopped
  }

  /** The state after the search for a free record. */
  ghost predicate Searched(f: Fixed, s: State, t: State, now: int, swept: bool) {
    && Inv(f, t) && NewKept(s, t) && (t.lru != [] && HasFree(t) <==> Room(f, s, now, swept))
    && (MustSpill(s, now, swept) ==> s.lru[|s.lru| - 1] in s.recs)
    && ThinnedFrom(f, s, now, SpillReason(s, MustSpill(s, now, swept)))(t)
  }

  /** The record to insert. */
  datatype Entry = Entry(name: string, addr: Option<seq<int>>, flags: set<Flag>, ttl: nat)

  /** The states between: after the first scan, and when a free record has been looked for. */
  datatype Steps = Steps(mid: State, room: State)

  /** A long name needs a buffer: a free one, or one that may still be allocated. */
  predicate HasBuffer(s: State, name: string, alloc: bool) {
    |name| <= SMALL_NAME || s.bigFree > 0 || (s.bigLeft > 0 && alloc)
  }

  function AddrOf(addr: Option<seq<int>>): seq<int> {
    if addr.Some? then addr.value else []
  }

  /** What the new record replaces has been removed, and a free record has been looked for. */
  ghost predicate RoomMade(f: Fixed, s: State, e: Entry, now: int, m: Steps) {
    && ScanFreed(f, s, m.mid, e.name, AddrOf(e.addr), now, e.flags - {Config})
    && if NameFree(f, s, e.name, now, e.flags - {Config}) then Searched(f, m.mid, m.room, now, Reverse in e.flags) else m.room == m.mid
  }

  /** There is a free record to take. */
  predicate Finds(f: Fixed, s: State, e: Entry, now: int, m: Steps) {
    NameFree(f, s, e.name, now, e.flags - {Config}) && Room(f, m.mid, now, Reverse in e.flags)
  }

  /** The tail is taken if and only if it was found free and there is a buffer for a long name. */
  predicate Took(s: State, t: State, e: Entry, now: int, alloc: bool, found: bool, id: Option<Id>) {
    && (id.Some? <==> found && HasBuffer(s, e.name, alloc))
    && if id.None? then t == s
       else CanTake(s, e.name) && id.value == s.lru[|s.lru| - 1] && t == Taken(s, e.flags, e.name, e.addr, now + e.ttl)
  }

  lemma TookIsOk(f: Fixed, s: State, t: State, e: Entry, now: int, alloc: bool, found: bool, id: Option<Id>)
    requires InvOf(f)(s) && Insertable(e.flags) && TookFrom(s, e, now, alloc, found, id)(t)
    ensures InvOf(f)(t)
  {
    if id.Some? {
      TakenOk(f, s, t, e.flags, e.name, e.addr, now + e.ttl);
    }
  }

  lemma RoomIsOk(f: Fixed, s: State, e: Entry, now: int, m: Steps)
    requires RoomMade(f, s, e, now, m)
    ensures InvOf(f)(m.room) && (Finds(f, s, e, now, m) ==>
              m.room.lru != [] && m.room.lru[|m.room.lru| - 1] in m.room.recs && !InUse(m.room.recs[m.room.lru[|m.room.lru| - 1]]))
  {
    if m.room.lru != [] {
      TailIsFree(f, m.room);
    }
  }

  /** The reasons for which an insert removes records: its own name or address, and that of the tail if it is thrown out. */
  function InsertReason(f: Fixed, s: State, e: Entry, now: int, mid: State): Rec -> bool
    requires MustSpill(mid, now, Reverse in e.flags) ==> mid.lru[|mid.lru| - 1] in mid.recs
  {
    Either(Victim(e.name, AddrOf(e.addr), e.flags - {Config}),
           SpillReason(mid, NameFree(f, s, e.name, now, e.flags - {Config}) && MustSpill(mid, now, Reverse in e.flags)))
  }

  lemma RoomThins(f: Fixed, s: State, e: Entry, now: int, m: Steps)
    requires Inv(f, s) && RoomMade(f, s, e, now, m)
    ensures MustSpill(m.mid, now, Reverse in e.flags) ==> m.mid.lru[|m.mid.lru| - 1] in m.mid.recs
    ensures ThinnedFrom(f, s, now, InsertReason(f, s, e, now, m.mid))(m.room)
  {
    var plain, swept := e.flags - {Config}, Reverse in e.flags;
    var victim := Victim(e.name, AddrOf(e.addr), plain);
    assert MustSpill(m.mid, now, swept) ==> m.mid.lru[|m.mid.lru| - 1] in Elems(m.mid.lru);
    ScanThins(f, s, m.mid, e.name, AddrOf(e.addr), now, plain);
    if NameFree(f, s, e.name, now, plain) {
      ThinnedTwice(f, s, m.mid, m.room, now, victim, SpillReason(m.mid, MustSpill(m.mid, now, swept)));
    } else {
      ThinnedMore(f, s, m.mid, now, victim, InsertReason(f, s, e, now, m.mid));
    }
  }

  lemma RoomKeepsNew(f: Fixed, s: State, e: Entry, now: int, m: Steps)
    requires RoomMade(f, s, e, now, m)
    ensures NewKept(s, m.room)
  {
    if NameFree(f, s, e.name, now, e.flags - {Config}) {
      NewKeptTwice(s, m.mid, m.room);
    }
  }

  lemma TakingAdds(f: Fixed, s: State, room: State, t: State, e: Entry, now: int, alloc: bool, found: bool, id: Option<Id>)
    requires PoolOk(f, room) && NewKept(s, room) && TookFrom(room, e, now, alloc, found, id)(t)
    ensures if id.Some? then Added(s, t, id.value, e.flags, e.name, e.addr, now + e.ttl) else NewKept(s, t)
  {
    if id.Some? {
      TakenAdds(f, s, room, e.flags, e.name, e.addr, now + e.ttl);
    }
  }

  /** An insert adds one record to the new chain, with the contents given, or leaves the new chain as it is. */
  lemma InsertionAdds(f: Fixed, s: State, t: State, e: Entry, now: int, alloc: bool, found: bool, id: Option<Id>, m: Steps)
    requires Insertable(e.flags) && RoomFrom(f, s, e, now, found, m)(m.room) && TookFrom(m.room, e, now, alloc, found, id)(t)
    ensures Inserted(f, s, t, id, e.flags, e.name, e.addr, now + e.ttl)
  {
    RoomKeepsNew(f, s, e, now, m);
    RoomIsOk(f, s, e, now, m);
    TookIsOk(f, m.room, t, e, now, alloc, found, id);
    TakingAdds(f, s, m.room, t, e, now, alloc, found, id);
  }

  lemma ThinnedByTaking(f: Fixed, s: State, room: State, now: int, why: Rec -> bool, e: Entry)
    requires UidOk(f, s) && TableOk(f, room) && ThinnedFrom(f, s, now, why)(room) && CanTake(room, e.name)
    ensures ThinnedFrom(f, s, now, why)(Taken(room, e.flags, e.name, e.addr, now + e.ttl))
  {
    TakenThins(f, room, now, why, e.flags, e.name, e.addr, now + e.ttl);
    ThinnedTwice(f, s, room, Taken(room, e.flags, e.name, e.addr, now + e.ttl), now, why, why);
    ThinnedMore(f, s, Taken(room, e.flags, e.name, e.addr, now + e.ttl), now, Either(why, why), why);
  }

  lemma ThinnedIfTaken(f: Fixed, s: State, room: State, t: State, e: Entry, now: int, alloc: bool, found: bool, id: Option<Id>, why: Rec -> bool)
    requires UidOk(f, s) && TableOk(f, room) && ThinnedFrom(f, s, now, why)(room) && TookFrom(room, e, now, alloc, found, id)(t)
    ensures ThinnedFrom(f, s, now, why)(t)
  {
    if id.Some? {
      ThinnedByTaking(f, s, room, now, why, e);
    }
  }

  /**
    No record leaves the chains by an insert unless it has expired, is outdated by then, is replaced, or has the name or
    address of a tail that had to be thrown out.
   */
  lemma InsertionThins(f: Fixed, s: State, t: State, e: Entry, now: int, alloc: bool, found: bool, id: Option<Id>, m: Steps)
    requires Inv(f, s) && RoomFrom(f, s, e, now, found, m)(m.room) && TookFrom(m.room, e, now, alloc, found, id)(t)
    ensures MustSpill(m.mid, now, Reverse in e.flags) ==> m.mid.lru[|m.mid.lru| - 1] in m.mid.recs
    ensures ThinnedFrom(f, s, now, InsertReason(f, s, e, now, m.mid))(t)
  {
    RoomThins(f, s, e, now, m);
    RoomIsOk(f, s, e, now, m);
    ThinnedIfTaken(f, s, m.room, t, e, now, alloc, found, id, InsertReason(f, s, e, now, m.mid));
  }

  // ----- the same as properties of the state reached -----

  ghost function SweptFrom(f: Fixed, s: State, addr: seq<int>, now: int, flags: set<Flag>, b: nat): State -> bool {
    t => Progressing(f, s, t, b, Stale(addr, now, flags)) && (!HasStale(s, addr, now, flags) ==> t.lru == s.lru)
  }

  ghost function FreedFrom(f: Fixed, s: State, name: string, addr: seq<int>, now: int, flags: set<Flag>): State -> bool {
    t => ScanFreed(f, s, t, name, addr, now, flags)
  }

  ghost function HuntFrom(f: Fixed, s: State, now: int, swept: bool, h: Hunt): State -> bool {
    t => Hunting(f, s, t, now, swept, h)
  }

  ghost function SearchedFrom(f: Fixed, s: State, now: int, swept: bool, found: bool): State -> bool {
    t => Searched(f, s, t, now, swept) && (found <==> Room(f, s, now, swept))
  }

  ghost function RoomFrom(f: Fixed, s: State, e: Entry, now: int, found: bool, m: Steps): State -> bool {
    t => RoomMade(f, s, e, now, m) && m.room == t && (found <==> Finds(f, s, e, now, m))
  }

  ghost function TookFrom(s: State, e: Entry, now: int, alloc: bool, found: bool, id: Option<Id>): State -> bool {
    t => Took(s, t, e, now, alloc, found, id)
  }
}
