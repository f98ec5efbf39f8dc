/**
  A run of the DNS cache (external/dnsmasq/src/cache.c) from its start to an insert that fails for want of room: an
  address is cached, a lease and an alias of the cached name are added, and nothing can be cached any more.
 */
module CacheStarved {
  import opened Options
  import opened Lists
  import opened CacheState
  import opened CacheLookup
  import opened CacheSweep
  import opened CacheInsert
  import opened CacheRoom
  import opened CacheLocal
  import opened CacheAlias
  import opened DnsCache

  const TTL := 100

  function AddressOf(name: string): Entry {
    Entry(name, Some([192, 0, 2, 1]), {Forward, IPv4}, TTL)
  }

  lemma AddressInsertable(name: string)
    ensures Insertable(AddressOf(name).flags)
  {}

  /** The lease, and an alias of the cached name that leads to it. */
  function Lease(uid: int): Rec {
    Rec({Forward, Reverse, IPv4, Dhcp}, "h", [192, 0, 2, 2], None, 0, TTL, uid)
  }

  function AliasFor(lease: Id, uid: int): Rec {
    Rec({Forward, Config, Dhcp, Cname}, "a", [], Some(lease), uid, TTL, 0)
  }

  // ----- the states of the run -----

  predicate NothingHashed(s: State) {
    forall c, y | 0 <= c < |s.table| :: y !in s.table[c]
  }

  predicate OnlyHashed(s: State, x: Id, h: Id) {
    forall c, y | 0 <= c < |s.table| && y in s.table[c] :: y == x || y == h
  }

  /** The pool has one record, and it is free; nothing is hashed. */
  ghost predicate Fresh(f: Fixed, s: State, x: Id) {
    && Inv(f, s) && s.lru == [x] && s.newChain == [] && f.pool == {x} && x in s.recs && !InUse(s.recs[x]) && NothingHashed(s)
  }

  predicate HoldsA(s: State, x: Id) {
    x in s.recs && s.recs[x].flags == {Forward, IPv4} && s.recs[x].name == "a" && s.recs[x].ttd == TTL
  }

  /** The record is the new address, and nothing is hashed yet. */
  ghost predicate Pending(f: Fixed, s: State, x: Id) {
    Inv(f, s) && s.lru == [] && s.newChain == [x] && f.pool == {x} && HoldsA(s, x) && NothingHashed(s)
  }

  /** The address is cached, and nothing else is hashed. */
  ghost predicate Cached(f: Fixed, s: State, x: Id) {
    Inv(f, s) && s.lru == [x] && f.pool == {x} && HoldsA(s, x) && OnlyHashed(s, x, x)
  }

  /** And the lease as well. */
  ghost predicate Leased(f: Fixed, s: State, x: Id, uid: int) {
    && Inv(f, s) && s.lru == [x] && f.pool == {x} && HoldsA(s, x) && OnlyHashed(s, x, x + 1)
    && x + 1 in s.recs && s.recs[x + 1] == Lease(uid)
  }

  ghost function FreshAt(f: Fixed, x: Id): State -> bool { s => Fresh(f, s, x) }

  ghost function PendingAt(f: Fixed, x: Id): State -> bool { s => Pending(f, s, x) }

  ghost function CachedAt(f: Fixed, x: Id): State -> bool { s => Cached(f, s, x) }

  ghost function LeasedAt(f: Fixed, x: Id, uid: int): State -> bool { s => Leased(f, s, x, uid) }

  /** Nothing can be cached any more, not even a name that nothing is known of. */
  ghost predicate Starved(f: Fixed, s: State) {
    && |s.table| > 0 && Blocked(f, s, 0) && (forall swept :: !Room(f, s, 0, swept))
    && AllKept(s.recs, s.table[Bucket(f.mix, |s.table|, "b")], "b", 0, {Forward, IPv4})
  }

  // ----- from one to the next -----

  lemma BeginsFresh(f: Fixed, s: State) returns (x: Id)
    requires Inv(f, s) && |s.lru| == 1 && s.newChain == [] && forall c | 0 <= c < |s.table| :: s.table[c] == []
    ensures FreshAt(f, x)(s)
  {
    x := s.lru[0];
    assert x in s.lru && x in Elems(s.lru) && Elems(s.newChain) == {};
    assert forall y | y in f.pool :: y in Elems(s.lru) && y in s.lru && y == x;
    assert Hashed(f, s, x) <==> x in s.table[Bucket(f.mix, |s.table|, s.recs[x].name)];
  }

  /** The only record of the pool is new, so that none is left on the list. */
  lemma TakenIsPooled(f: Fixed, t: State, x: Id, y: Id)
    requires InvOf(f)(t) && f.pool == {x} && t.newChain == [y] && HoldsA(t, y) && NothingHashed(t)
    ensures y == x && PendingAt(f, x)(t)
  {
    assert y in t.newChain && y in Elems(t.newChain) && y in f.pool;
    assert forall z | z in t.lru :: z in Elems(t.lru) && z in f.pool && z !in Elems(t.newChain);
    HasElems(t.lru);
  }

  lemma HasElems(q: seq<Id>)
    ensures q != [] ==> exists z :: z in q
  {
    if q != [] {
      assert q[0] in q;
    }
  }

  lemma FirstFound(f: Fixed, s: State, x: Id, alloc: bool, found: bool, id: Option<Id>, m: Steps, t: State)
    requires FreshAt(f, x)(s)
    requires RoomFrom(f, s, AddressOf("a"), 0, found, m)(m.room) && TookFrom(m.room, AddressOf("a"), 0, alloc, found, id)(t)
    ensures id.Some?
  {
    assert x in s.lru && HasFree(s);
    RecordByRoom(f, s, t, AddressOf("a"), 0, alloc, found, id, m);
  }

  lemma AddedHolds(s: State, t: State, y: Id)
    requires s.newChain == [] && Added(s, t, y, {Forward, IPv4}, "a", Some([192, 0, 2, 1]), TTL)
    ensures t.newChain == [y] && HoldsA(t, y)
  {
    assert {Forward, IPv4} - {Config} + {} == {Forward, IPv4};
  }

  lemma StillNothing(f: Fixed, s: State, t: State, now: int, why: Rec -> bool)
    requires NothingHashed(s) && ThinnedFrom(f, s, now, why)(t)
    ensures NothingHashed(t)
  {
    forall c, y | 0 <= c < |t.table| ensures y !in t.table[c] {
      assert ThinnedAt(s, t, now, why, c, y);
    }
  }

  lemma FirstHolds(f: Fixed, s: State, t: State, x: Id, alloc: bool, found: bool, id: Option<Id>, m: Steps)
    requires FreshAt(f, x)(s) && id.Some?
    requires RoomFrom(f, s, AddressOf("a"), 0, found, m)(m.room) && TookFrom(m.room, AddressOf("a"), 0, alloc, found, id)(t)
    ensures InvOf(f)(t) && t.newChain == [id.value] && HoldsA(t, id.value)
  {
    AddressInsertable("a");
    InsertionAdds(f, s, t, AddressOf("a"), 0, alloc, found, id, m);
    AddedHolds(s, t, id.value);
  }

  lemma FirstHashesNothing(f: Fixed, s: State, t: State, x: Id, alloc: bool, found: bool, id: Option<Id>, m: Steps)
    requires FreshAt(f, x)(s)
    requires RoomFrom(f, s, AddressOf("a"), 0, found, m)(m.room) && TookFrom(m.room, AddressOf("a"), 0, alloc, found, id)(t)
    ensures NothingHashed(t)
  {
    InsertionThins(f, s, t, AddressOf("a"), 0, alloc, found, id, m);
    StillNothing(f, s, t, 0, InsertReason(f, s, AddressOf("a"), 0, m.mid));
  }

  /** The first insert takes the record. */
  lemma FirstTaken(f: Fixed, s: State, t: State, x: Id, alloc: bool, found: bool, id: Option<Id>, m: Steps)
    requires FreshAt(f, x)(s)
    requires RoomFrom(f, s, AddressOf("a"), 0, found, m)(m.room) && TookFrom(m.room, AddressOf("a"), 0, alloc, found, id)(t)
    ensures id == Some(x) && PendingAt(f, x)(t)
  {
    FirstFound(f, s, x, alloc, found, id, m, t);
    FirstHolds(f, s, t, x, alloc, found, id, m);
    FirstHashesNothing(f, s, t, x, alloc, found, id, m);
    TakenIsPooled(f, t, x, id.value);
  }

  lemma OneStays(recs: map<Id, Rec>, x: Id)
    requires x in recs && Cname !in recs[x].flags
    ensures Returned(recs, [x]) == [] && Staying(recs, [x]) == [x]
  {
    assert [x][..0] == [];
    assert Returned(recs, []) == [] && Staying(recs, []) == [];
  }

  lemma NowCached(f: Fixed, s: State, t: State, x: Id)
    requires PendingAt(f, x)(s) && InvOf(f)(t) && Committed(f, s, 1, t)
    ensures CachedAt(f, x)(t)
  {
    assert s.newChain[..1] == [x];
    OneStays(s.recs, x);
    OneSettled(f, s, t, s.newChain[1..], x);
  }

  lemma OneSettled(f: Fixed, s: State, t: State, rest: seq<Id>, x: Id)
    requires Settled(f, s, t, rest, [x], []) && s.lru == [] && HoldsA(s, x) && NothingHashed(s)
    ensures t.lru == [x] && HoldsA(t, x) && OnlyHashed(t, x, x)
  {
    assert Backwards([x]) == [x];
    forall c, y | 0 <= c < |t.table| && y in t.table[c] ensures y == x {
      assert y in s.table[c] || y in [x];
    }
  }

  lemma LeaseAddable(f: Fixed, s: State, x: Id, uid: int)
    requires CachedAt(f, x)(s)
    ensures Addable(f, s, x + 1, Lease(uid))
  {}

  lemma NowLeased(f: Fixed, s: State, t: State, x: Id, uid: int)
    requires CachedAt(f, x)(s) && InvOf(f)(t) && LocalAdded(f, s, t, x + 1, Lease(uid))
    ensures LeasedAt(f, x, uid)(t)
  {}

  lemma AliasAddable(f: Fixed, s: State, x: Id, uid: int)
    requires LeasedAt(f, x, uid)(s)
    ensures Addable(f, s, x + 2, AliasFor(x + 1, uid))
  {}

  lemma OneIsFull(s: State, x: Id)
    requires s.lru == [x] && HoldsA(s, x)
    ensures FullOfLive(s, 0)
  {
    assert forall y | y in s.lru :: y == x;
  }

  lemma LeaseStays(f: Fixed, s: State, t: State, x: Id, uid: int)
    requires |s.table| > 0 && HoldsA(s, x) && OnlyHashed(s, x, x + 1) && x + 1 in s.recs && s.recs[x + 1] == Lease(uid)
    ensures ReverseStay(f, s, t, "a", 0, {Forward, IPv4})
  {}

  lemma AliasIsLive(recs: map<Id, Rec>, h: Id, uid: int)
    requires h in recs && recs[h] == Lease(uid)
    ensures LiveAlias(AliasFor(h, uid), "a", 0) && !Outdated(recs, AliasFor(h, uid))
  {}

  /** The alias makes the cache refuse everything. */
  lemma NowBlocked(f: Fixed, s: State, t: State, x: Id, uid: int)
    requires LeasedAt(f, x, uid)(s) && InvOf(f)(t) && LocalAdded(f, s, t, x + 2, AliasFor(x + 1, uid))
    ensures Blocked(f, t, 0) && forall swept :: !Room(f, t, 0, swept)
  {
    AliasAddable(f, s, x, uid);
    OneIsFull(s, x);
    LeaseStays(f, s, t, x, uid);
    AliasIsLive(t.recs, x + 1, uid);
    AliasBlocks(f, s, t, x + 2, AliasFor(x + 1, uid), 0);
  }

  lemma NotB()
    ensures !SameName("a", "b") && !SameName("h", "b")
  {
    assert Lower("a")[0] == 'a' && Lower("b")[0] == 'b' && Lower("h")[0] == 'h';
  }

  /** Nothing that is hashed has to do with another name. */
  lemma NothingOfB(f: Fixed, s: State, t: State, x: Id, uid: int, c: nat)
    requires HoldsA(s, x) && OnlyHashed(s, x, x + 1) && x + 1 in s.recs && s.recs[x + 1] == Lease(uid)
    requires LocalAdded(f, s, t, x + 2, AliasFor(x + 1, uid)) && c < |t.table|
    ensures AllKept(t.recs, t.table[c], "b", 0, {Forward, IPv4})
  {
    NotB();
    forall y | y in t.table[c]
      ensures y in t.recs && !Expired(t.recs[y], 0) && !Outdated(t.recs, t.recs[y]) && !Replaces(t.recs[y], "b", {Forward, IPv4})
    {
      assert y in s.table[c] || y == x + 2;
    }
  }

  lemma NowStarved(f: Fixed, s: State, t: State, x: Id, uid: int)
    requires LeasedAt(f, x, uid)(s) && InvOf(f)(t) && LocalAdded(f, s, t, x + 2, AliasFor(x + 1, uid))
    ensures Starved(f, t)
  {
    NowBlocked(f, s, t, x, uid);
    NothingOfB(f, s, t, x, uid, Bucket(f.mix, |t.table|, "b"));
  }

  /** The address is cached, in a cache that can take nothing more. */
  ghost function StarvedWith(f: Fixed, x: Id): State -> bool {
    s => Inv(f, s) && s.lru == [x] && HoldsA(s, x) && Hashed(f, s, x) && Starved(f, s)
  }

  lemma NowFull(f: Fixed, s: State, t: State, x: Id, uid: int)
    requires LeasedAt(f, x, uid)(s) && InvOf(f)(t) && LocalAdded(f, s, t, x + 2, AliasFor(x + 1, uid))
    ensures StarvedWith(f, x)(t)
  {
    NowStarved(f, s, t, x, uid);
    assert x in t.lru && t.recs[x] == s.recs[x];
  }

  lemma NothingTaken(f: Fixed, s: State, t: State, alloc: bool, found: bool, id: Option<Id>, m: Steps)
    requires Starved(f, s)
    requires RoomFrom(f, s, AddressOf("b"), 0, found, m)(m.room) && TookFrom(m.room, AddressOf("b"), 0, alloc, found, id)(t)
    ensures id.None?
  {
    assert {Forward, IPv4} - {Config} == {Forward, IPv4};
    RecordByRoom(f, s, t, AddressOf("b"), 0, alloc, found, id, m);
  }

  // ----- the run -----

  method CacheAddress(cache: Cache, alloc: bool, ghost x: Id) returns (id: Id)
    requires FreshAt(cache.f, x)(cache.S()) && !cache.insertError
    modifies cache
    ensures PendingAt(cache.f, id)(cache.S()) && !cache.insertError
  {
    ghost var s := cache.S();
    var new_, _, found, m := cache.Insert(AddressOf("a"), 0, alloc);
    FirstTaken(cache.f, s, cache.S(), x, alloc, found, new_, m);
    id := new_.value;
  }

  method Settle(cache: Cache, ghost x: Id)
    requires PendingAt(cache.f, x)(cache.S()) && !cache.insertError
    modifies cache
    ensures CachedAt(cache.f, x)(cache.S()) && !cache.insertError
  {
    ghost var s := cache.S();
    cache.EndInsert();
    NowCached(cache.f, s, cache.S(), x);
  }

  method AddLease(cache: Cache, x: Id) returns (uid: int)
    requires CachedAt(cache.f, x)(cache.S()) && !cache.insertError
    modifies cache
    ensures LeasedAt(cache.f, x, uid)(cache.S()) && !cache.insertError
  {
    ghost var s := cache.S();
    uid := cache.uid;
    LeaseAddable(cache.f, s, x, uid);
    cache.AddLocal(x + 1, Lease(uid));
    NowLeased(cache.f, s, cache.S(), x, uid);
  }

  method AddAlias(cache: Cache, x: Id, uid: int)
    requires LeasedAt(cache.f, x, uid)(cache.S()) && !cache.insertError
    modifies cache
    ensures StarvedWith(cache.f, x)(cache.S()) && !cache.insertError
  {
    ghost var s := cache.S();
    AliasAddable(cache.f, s, x, uid);
    cache.AddLocal(x + 2, AliasFor(x + 1, uid));
    NowFull(cache.f, s, cache.S(), x, uid);
  }

  /** The address of another name is refused. */
  method CacheAnother(cache: Cache, alloc: bool, ghost x: Id) returns (id: Option<Id>)
    requires StarvedWith(cache.f, x)(cache.S()) && !cache.insertError
    modifies cache
    ensures id.None? && cache.insertError
  {
    ghost var s := cache.S();
    ghost var rounds, found, m;
    id, rounds, found, m := cache.Insert(AddressOf("b"), 0, alloc);
    NothingTaken(cache.f, s, cache.S(), alloc, found, id, m);
  }

  /** From the start of the cache: one address is cached, and after the alias no other one can be. */
  method AliasStarves(mix: string -> nat, alloc: bool) returns (cache: Cache, first: Id, second: Option<Id>, ghost full: State)
    ensures fresh(cache) && StarvedWith(cache.f, first)(full) && second.None? && cache.insertError
  {
    cache := new Cache(1, mix);
    ghost var x := BeginsFresh(cache.f, cache.S());
    first := CacheAddress(cache, alloc, x);
    Settle(cache, first);
    var uid := AddLease(cache, first);
    AddAlias(cache, first, uid);
    full := cache.S();
    second := CacheAnother(cache, alloc, first);
  }
}
