/**
  How a DHCP alias can starve the DNS cache (external/dnsmasq/src/cache.c). cache_add_dhcp_entry hashes an alias without
  removing cached records of its name, and in front of them. When one of those is at the tail of the LRU list, the
  sweep that should throw it out meets the alias first and gives up.
 */
module CacheAlias {
  import opened Options
  import opened Lists
  import opened CacheState
  import opened CacheLookup
  import opened CacheSweep
  import opened CacheInsert
  import opened CacheRoom
  import opened CacheLocal

  /** A live alias that does expire, as cache_add_dhcp_entry makes it for a lease that does. */
  predicate LiveAlias(r: Rec, name: string, now: int) {
    && Forward in r.flags && Cname in r.flags && Dhcp in r.flags && Reverse !in r.flags && Immortal !in r.flags
    && SameName(r.name, name) && now < r.ttd
  }

  /** Every pooled record is live and in use, and the one at the tail is a forward record. */
  predicate FullOfLive(s: State, now: int) {
    && s.lru != [] && AllIn(s.recs, s.lru) && !HasFree(s) && NoneExpired(s, now)
    && var r := s.recs[s.lru[|s.lru| - 1]]; Forward in r.flags && Reverse !in r.flags
  }

  /** The alias goes in front of all records of its chain but the reverse ones. */
  lemma AliasInFront(f: Fixed, s: State, t: State, id: Id, alias: Rec, name: string, now: int, j: nat)
    requires TableOk(f, s) && LocalAdded(f, s, t, id, alias) && LiveAlias(alias, name, now) && Unchained(s, id)
    requires var b := Bucket(f.mix, |s.table|, name); b < |t.table| && j < |t.table[b]| && t.table[b][j] == id
    ensures var chain := t.table[Bucket(f.mix, |s.table|, name)];
            forall i | 0 <= i < j :: chain[i] in s.table[Bucket(f.mix, |s.table|, name)] && chain[i] in s.recs
                                     && t.recs[chain[i]] == s.recs[chain[i]] && Reverse in s.recs[chain[i]].flags
  {
    var b := Bucket(f.mix, |s.table|, name);
    var before, chain := s.table[b], t.table[b];
    assert ChainOk(f, s.recs, |s.table|, before, b);
    var k := Place(t.recs, before, Class(alias));
    assert chain == InsertAt(before, k, id);
    assert j == k by {
      assert forall i | 0 <= i < |chain| :: chain[i] == if i < k then before[i] else if i == k then id else before[i - 1];
      assert id !in before;
    }
    forall i | 0 <= i < j
      ensures chain[i] in before && chain[i] in s.recs && t.recs[chain[i]] == s.recs[chain[i]] && Reverse in s.recs[chain[i]].flags
    {
      assert chain[i] == before[i] && before[i] in before;
    }
  }

  /** No reverse record of the chain goes in a sweep for the name. */
  predicate ReverseStay(f: Fixed, s: State, t: State, name: string, now: int, flags: set<Flag>) {
    |s.table| > 0 &&
    forall x | x in s.table[Bucket(f.mix, |s.table|, name)] && x in s.recs && Reverse in s.recs[x].flags ::
      !Goes(t.recs, s.recs[x], name, now, flags)
  }

  /** Adding an alias of the tail's name to a cache full of live records leaves no room for anything. */
  lemma AliasBlocks(f: Fixed, s: State, t: State, id: Id, alias: Rec, now: int)
    requires Inv(f, s) && Inv(f, t) && Addable(f, s, id, alias) && LocalAdded(f, s, t, id, alias) && FullOfLive(s, now)
    requires var r := s.recs[s.lru[|s.lru| - 1]];
             LiveAlias(alias, r.name, now) && !Outdated(t.recs, alias) && ReverseStay(f, s, t, r.name, now, r.flags)
    ensures FullOfLive(t, now) && Blocked(f, t, now) && forall swept :: !Room(f, t, now, swept)
  {
    assert forall x | x in s.lru :: x in Elems(s.lru) && x in f.pool && x != id && t.recs[x] == s.recs[x];
    assert t.lru == s.lru;
    var r := s.recs[s.lru[|s.lru| - 1]];
    assert s.lru[|s.lru| - 1] in s.lru;
    var b := Bucket(f.mix, |s.table|, r.name);
    assert ChainOk(f, t.recs, |t.table|, t.table[b], b);
    assert id in t.table[b];
    var j := IndexOf(t.table[b], id);
    AliasInFront(f, s, t, id, alias, r.name, now, j);
    assert BlocksAt(t.recs, t.table[b], r.name, now, r.flags, j);
    SpillFailsExactly(f, t, now);
  }

  // ----- an insert that fails -----

  /** A sweep for the name leaves the chain alone. */
  predicate AllKept(recs: map<Id, Rec>, chain: seq<Id>, name: string, now: int, flags: set<Flag>) {
    forall x | x in chain :: x in recs && !Expired(recs[x], now) && !Outdated(recs, recs[x]) && !Replaces(recs[x], name, flags)
  }

  lemma {:induction false} SweepKeepsAll(recs: map<Id, Rec>, chain: seq<Id>, name: string, now: int, flags: set<Flag>)
    requires AllKept(recs, chain, name, now, flags)
    ensures SweepOf(recs, NameJudge(recs, name, now, flags), chain) == Sweep(Progress([], chain, []), [], false)
  {
    if chain != [] {
      SweepKeepsAll(recs, chain[..|chain| - 1], name, now, flags);
      assert chain[..|chain| - 1] + [chain[|chain| - 1]] == chain;
    }
  }

  lemma SweptSame(f: Fixed, s: State, name: string, now: int, flags: set<Flag>)
    requires |s.table| > 0 && AllKept(s.recs, s.table[Bucket(f.mix, |s.table|, name)], name, now, flags)
    ensures AllIn(s.recs, s.table[Bucket(f.mix, |s.table|, name)]) && NameSwept(f, s, name, now, flags) == s
    ensures NameFree(f, s, name, now, flags)
  {
    var b := Bucket(f.mix, |s.table|, name);
    SweepKeepsAll(s.recs, s.table[b], name, now, flags);
    PartwayStart(s, b);
    assert s.table[b] + [] == s.table[b] && [] + s.table[b] == s.table[b];
  }

  /** With nothing of its own name to replace, a forward insert of a short name gives a record if and only if there is room. */
  lemma RecordByRoom(f: Fixed, s: State, t: State, e: Entry, now: int, alloc: bool, found: bool, id: Option<Id>, m: Steps)
    requires |s.table| > 0 && Forward in e.flags && |e.name| <= SMALL_NAME
    requires AllKept(s.recs, s.table[Bucket(f.mix, |s.table|, e.name)], e.name, now, e.flags - {Config})
    requires RoomFrom(f, s, e, now, found, m)(m.room) && TookFrom(m.room, e, now, alloc, found, id)(t)
    ensures id.Some? <==> Room(f, s, now, Reverse in e.flags)
  {
    SweptSame(f, s, e.name, now, e.flags - {Config});
  }
}
