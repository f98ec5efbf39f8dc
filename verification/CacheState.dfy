/**
  The DNS cache as a value (external/dnsmasq/src/cache.c): records, the hash chains, the list of
  pooled records from most to least recently used, the chain of records of an unfinished
  insert, and the counters. Lists hold record numbers where the source holds pointers.
 */
module CacheState {
  import opened Options
  import opened Lists

  type Id = nat

  datatype Flag = Immortal | Config | Reverse | Forward | Dhcp | Neg | Hosts | IPv4 | IPv6 | BigName | NxDomain | Cname

  datatype Rec = Rec(flags: set<Flag>, name: string, addr: seq<int>, target: Option<Id>, targetUid: int, ttd: int, uid: int)

  /** What does not change while the cache runs. */
  datatype Fixed = Fixed(mix: string -> nat, pool: set<Id>, bigTotal: nat)

  datatype State = State(recs: map<Id, Rec>, table: seq<seq<Id>>, lru: seq<Id>, newChain: seq<Id>,
                         bigFree: nat, bigLeft: nat, uid: int)

  // ----- names and hashing -----

  function LowerChar(ch: char): char {
    if 'A' <= ch <= 'Z' then ch + ('a' - 'A') else ch
  }

  /** Names are compared and hashed with ASCII case folded (hostname_isequal, hash_bucket). */
  function Lower(s: string): string {
    seq(|s|, i requires 0 <= i < |s| => LowerChar(s[i]))
  }

  predicate SameName(a: string, b: string) {
    Lower(a) == Lower(b)
  }

  function Bucket(mix: string -> nat, size: nat, name: string): (b: nat)
    requires size > 0
    ensures b < size
  {
    mix(Lower(name)) % size
  }

  // ----- single records -----

  predicate InUse(r: Rec) {
    Forward in r.flags || Reverse in r.flags
  }

  /** From a hosts file or a DHCP lease: hashed but never in the pool. */
  predicate Local(r: Rec) {
    Hosts in r.flags || Dhcp in r.flags
  }

  /** An address family, or a forward CNAME: every record that the cache is given is of one of these kinds. */
  predicate Typed(r: Rec) {
    IPv4 in r.flags || IPv6 in r.flags || (Forward in r.flags && Cname in r.flags)
  }

  /** Position in a hash chain: reverse records, then mortal ones, then immortal ones. */
  function Class(r: Rec): int {
    if Reverse in r.flags then 0 else if Immortal !in r.flags then 1 else 2
  }

  predicate Expired(r: Rec, now: int) {
    Immortal !in r.flags && now >= r.ttd
  }

  /** A CNAME whose target is missing or has been reused. */
  predicate Outdated(recs: map<Id, Rec>, r: Rec) {
    Cname in r.flags
    && !(r.target.Some? && r.target.value in recs && recs[r.target.value].uid == r.targetUid)
  }

  // ----- the invariant -----

  predicate Ordered(recs: map<Id, Rec>, chain: seq<Id>)
    requires forall id | id in chain :: id in recs
  {
    forall i, j | 0 <= i < j < |chain| :: Class(recs[chain[i]]) <= Class(recs[chain[j]])
  }

  /** A chain holds, once each and in class order, records in use whose names hash to it. */
  predicate ChainOk(f: Fixed, recs: map<Id, Rec>, size: nat, chain: seq<Id>, b: nat)
    requires size > 0
  {
    && NoDup(chain)
    && (forall id | id in chain :: id in recs && InUse(recs[id]) && Bucket(f.mix, size, recs[id].name) == b)
    && Ordered(recs, chain)
  }

  predicate TableOk(f: Fixed, s: State) {
    && |s.table| > 0
    && forall b | 0 <= b < |s.table| :: ChainOk(f, s.recs, |s.table|, s.table[b], b)
  }

  /** Records in use come first. */
  predicate InUseFirst(recs: map<Id, Rec>, lru: seq<Id>)
    requires forall id | id in lru :: id in recs
  {
    forall i, j | 0 <= i < j < |lru| :: InUse(recs[lru[j]]) ==> InUse(recs[lru[i]])
  }

  /** The LRU list and the new chain partition the pool. */
  predicate PoolOk(f: Fixed, s: State) {
    && NoDup(s.lru) && NoDup(s.newChain) && Elems(s.lru) !! Elems(s.newChain)
    && Elems(s.lru) + Elems(s.newChain) == f.pool && f.pool <= s.recs.Keys
    && (forall id | id in f.pool :: !Local(s.recs[id]) && (InUse(s.recs[id]) ==> Typed(s.recs[id])))
    && (forall id | id in s.newChain :: InUse(s.recs[id]))
    && InUseFirst(s.recs, s.lru)
  }

  predicate Hashed(f: Fixed, s: State, id: Id)
    requires |s.table| > 0 && id in s.recs
  {
    id in s.table[Bucket(f.mix, |s.table|, s.recs[id].name)]
  }

  /** The pooled records in the chains are exactly the ones in use on the LRU list; the others are local. */
  predicate LinksOk(f: Fixed, s: State)
    requires |s.table| > 0 && forall id | id in s.lru :: id in s.recs
  {
    && (forall id | id in s.lru && InUse(s.recs[id]) :: Hashed(f, s, id))
    && (forall b, id | 0 <= b < |s.table| && id in s.table[b] && id in s.recs ::
          if id in f.pool then id in s.lru else Local(s.recs[id]))
  }

  function BigHolders(f: Fixed, recs: map<Id, Rec>): set<Id> {
    set id | id in f.pool && id in recs && BigName in recs[id].flags
  }

  /** Buffers for long names are conserved, and only records in use hold one. */
  predicate BigOk(f: Fixed, s: State) {
    && |BigHolders(f, s.recs)| + s.bigFree + s.bigLeft == f.bigTotal
    && forall id | id in BigHolders(f, s.recs) :: InUse(s.recs[id])
  }

  /** A CNAME that refers to a pooled record. */
  predicate PooledTarget(f: Fixed, r: Rec) {
    Cname in r.flags && r.target.Some? && r.target.value in f.pool
  }

  /** Pooled records bear, and CNAMEs of pooled records name, serial numbers already given out. */
  predicate UidOk(f: Fixed, s: State) {
    && (forall id | id in s.recs && id in f.pool :: s.recs[id].uid < s.uid)
    && (forall id | id in s.recs && PooledTarget(f, s.recs[id]) :: s.recs[id].targetUid < s.uid)
  }

  predicate Inv(f: Fixed, s: State) {
    TableOk(f, s) && PoolOk(f, s) && LinksOk(f, s) && BigOk(f, s) && UidOk(f, s)
  }

  /** The invariant as a property of states. */
  ghost function InvOf(f: Fixed): State -> bool {
    s => Inv(f, s)
  }

  // ----- elementary steps -----

  function FreedRec(r: Rec, uid: int): Rec {
    r.(flags := r.flags - {Forward, Reverse, BigName}, uid := uid)
  }

  /** cache_unlink and cache_free: to the tail of the LRU list, out of use, with a new serial number. */
  function Release(s: State, id: Id): State
    requires id in s.lru && id in s.recs
  {
    var r := s.recs[id];
    s.(recs := s.recs[id := FreedRec(r, s.uid)], lru := RemoveAt(s.lru, IndexOf(s.lru, id)) + [id],
       bigFree := if BigName in r.flags then s.bigFree + 1 else s.bigFree, uid := s.uid + 1)
  }

  function Unhash(s: State, b: nat, i: nat): State
    requires b < |s.table| && i < |s.table[b]|
  {
    s.(table := s.table[b := RemoveAt(s.table[b], i)])
  }

  /** Take a record out of its chain; a pooled one goes back to the pool. */
  function Drop(s: State, b: nat, i: nat): State
    requires b < |s.table| && i < |s.table[b]|
    requires s.table[b][i] in s.recs && (Local(s.recs[s.table[b][i]]) || s.table[b][i] in s.lru)
  {
    var id := s.table[b][i];
    if Local(s.recs[id]) then Unhash(s, b, i) else Release(Unhash(s, b, i), id)
  }

  /** cache_unlink and cache_link: to the head of the LRU list. */
  function Promote(s: State, id: Id): State
    requires id in s.lru
  {
    s.(lru := [id] + RemoveAt(s.lru, IndexOf(s.lru, id)))
  }

  /** Move a chain element forward. */
  function Advance(s: State, b: nat, k: nat, i: nat): State
    requires b < |s.table| && k <= i < |s.table[b]|
  {
    s.(table := s.table[b := InsertAt(RemoveAt(s.table[b], i), k, s.table[b][i])])
  }

  lemma UnhashTableOk(f: Fixed, s: State, b: nat, i: nat)
    requires TableOk(f, s) && b < |s.table| && i < |s.table[b]|
    ensures TableOk(f, Unhash(s, b, i)) && s.table[b][i] !in Unhash(s, b, i).table[b]
    ensures forall id | id != s.table[b][i] :: id in s.table[b] <==> id in Unhash(s, b, i).table[b]
  {
    var chain := s.table[b];
    RemoveAtElems(chain, i);
    assert forall id :: id in RemoveAt(chain, i) <==> id in Elems(RemoveAt(chain, i));
    assert forall id :: id in chain <==> id in Elems(chain);
    assert ChainOk(f, s.recs, |s.table|, RemoveAt(chain, i), b);
  }

  lemma ReleaseTableOk(f: Fixed, s: State, id: Id)
    requires TableOk(f, s) && id in s.lru && id in s.recs
    requires forall b | 0 <= b < |s.table| :: id !in s.table[b]
    ensures TableOk(f, Release(s, id))
  {
    var t := Release(s, id);
    forall b | 0 <= b < |s.table| ensures ChainOk(f, t.recs, |t.table|, t.table[b], b) {
      assert ChainOk(f, s.recs, |s.table|, s.table[b], b);
    }
  }

  lemma ReleasePoolOk(f: Fixed, s: State, id: Id)
    requires PoolOk(f, s) && id in s.lru
    ensures PoolOk(f, Release(s, id))
  {
    var t := Release(s, id);
    var k := IndexOf(s.lru, id);
    var q := RemoveAt(s.lru, k);
    RemoveAtElems(s.lru, k);
    assert forall x :: x in q <==> x in Elems(q);
    assert forall x :: x in s.lru <==> x in Elems(s.lru);
    assert Elems(q + [id]) == Elems(q) + {id};
    assert InUseFirst(s.recs, q);
  }

  lemma ReleaseBigOk(f: Fixed, s: State, id: Id)
    requires BigOk(f, s) && id in s.lru && id in s.recs && id in f.pool
    ensures BigOk(f, Release(s, id))
  {
    var t := Release(s, id);
    assert BigHolders(f, t.recs) == BigHolders(f, s.recs) - {id};
  }

  lemma DropOk(f: Fixed, s: State, b: nat, i: nat)
    requires Inv(f, s) && b < |s.table| && i < |s.table[b]|
    ensures s.table[b][i] in s.recs && (Local(s.recs[s.table[b][i]]) || s.table[b][i] in s.lru)
    ensures Inv(f, Drop(s, b, i))
  {
    var id := s.table[b][i];
    assert ChainOk(f, s.recs, |s.table|, s.table[b], b);
    assert id in s.table[b];
    UnhashTableOk(f, s, b, i);
    var u := Unhash(s, b, i);
    if !Local(s.recs[id]) {
      assert id in s.lru;
      forall c | 0 <= c < |u.table| ensures id !in u.table[c] {
        assert ChainOk(f, s.recs, |s.table|, s.table[c], c);
      }
      assert id in Elems(s.lru) && id in f.pool;
      ReleaseTableOk(f, u, id);
      ReleasePoolOk(f, u, id);
      ReleaseBigOk(f, u, id);
      DropLinksOk(f, s, b, i);
    }
  }

  lemma ReleaseMembers(s: State, id: Id)
    requires id in s.lru && id in s.recs
    ensures forall x :: x in Release(s, id).lru <==> x in s.lru
  {
    var k := IndexOf(s.lru, id);
    forall x ensures x in Release(s, id).lru <==> x in s.lru {
      if x in s.lru {
        var j := IndexOf(s.lru, x);
        if j != k {
          assert RemoveAt(s.lru, k)[if j < k then j else j - 1] == x;
        }
      }
    }
  }

  lemma DropLinksOk(f: Fixed, s: State, b: nat, i: nat)
    requires Inv(f, s) && b < |s.table| && i < |s.table[b]|
    requires var id := s.table[b][i]; id in s.recs && id in s.lru && !Local(s.recs[id]) && id in f.pool
    ensures LinksOk(f, Drop(s, b, i))
  {
    var id := s.table[b][i];
    var u := Unhash(s, b, i);
    var t := Drop(s, b, i);
    UnhashTableOk(f, s, b, i);
    ReleaseMembers(u, id);
    forall x | x in t.lru && InUse(t.recs[x]) ensures Hashed(f, t, x) {
      assert x != id && Hashed(f, s, x);
    }
    forall c, x | 0 <= c < |t.table| && x in t.table[c] && x in t.recs
      ensures if x in f.pool then x in t.lru else Local(t.recs[x])
    {
      assert x in s.table[c];
    }
  }

  lemma PromotePoolOk(f: Fixed, s: State, id: Id)
    requires PoolOk(f, s) && id in s.lru && InUse(s.recs[id])
    ensures PoolOk(f, Promote(s, id)) && forall x :: x in Promote(s, id).lru <==> x in s.lru
  {
    var k := IndexOf(s.lru, id);
    var q := RemoveAt(s.lru, k);
    RemoveAtElems(s.lru, k);
    assert forall x :: x in q <==> x in Elems(q);
    assert forall x :: x in s.lru <==> x in Elems(s.lru);
    assert Elems([id] + q) == Elems(s.lru);
    assert forall x :: x in Promote(s, id).lru <==> x in Elems([id] + q);
    assert InUseFirst(s.recs, q);
  }

  lemma PromoteOk(f: Fixed, s: State, id: Id)
    requires Inv(f, s) && id in s.lru && InUse(s.recs[id])
    ensures Inv(f, Promote(s, id))
  {
    PromotePoolOk(f, s, id);
    var t := Promote(s, id);
    assert forall x | x in t.lru && InUse(t.recs[x]) :: Hashed(f, s, x) && Hashed(f, t, x);
  }

  /** Moving a record up to one of its own class keeps the order of the classes. */
  lemma AdvanceOk(f: Fixed, s: State, b: nat, k: nat, i: nat)
    requires Inv(f, s) && b < |s.table| && k <= i < |s.table[b]|
    requires s.table[b][k] in s.recs && s.table[b][i] in s.recs
    requires Class(s.recs[s.table[b][k]]) == Class(s.recs[s.table[b][i]])
    ensures Inv(f, Advance(s, b, k, i))
  {
    var chain := s.table[b];
    assert ChainOk(f, s.recs, |s.table|, chain, b);
    var moved := InsertAt(RemoveAt(chain, i), k, chain[i]);
    RemoveAtElems(chain, i);
    assert forall x :: x in RemoveAt(chain, i) <==> x in Elems(RemoveAt(chain, i));
    InsertAtElems(RemoveAt(chain, i), k, chain[i]);
    assert Elems(moved) == Elems(chain);
    assert forall x :: x in moved <==> x in Elems(moved);
    assert forall x :: x in chain <==> x in Elems(chain);
    AdvanceOrdered(s.recs, chain, k, i);
    var t := Advance(s, b, k, i);
    assert ChainOk(f, t.recs, |t.table|, moved, b);
    assert forall c, x | 0 <= c < |t.table| :: x in t.table[c] <==> x in s.table[c];
    assert forall x | x in t.lru && InUse(t.recs[x]) :: Hashed(f, s, x) && Hashed(f, t, x);
  }

  lemma AdvanceOrdered(recs: map<Id, Rec>, chain: seq<Id>, k: nat, i: nat)
    requires (forall id | id in chain :: id in recs) && Ordered(recs, chain) && k <= i < |chain|
    requires Class(recs[chain[k]]) == Class(recs[chain[i]])
    ensures var moved := InsertAt(RemoveAt(chain, i), k, chain[i]);
            (forall id | id in moved :: id in recs) && Ordered(recs, moved)
  {
    var moved := InsertAt(RemoveAt(chain, i), k, chain[i]);
    forall x | 0 <= x < |moved|
      ensures moved[x] == chain[if x < k || x > i then x else if x == k then i else x - 1]
    {}
  }

  /** Once its target is freed, a CNAME is outdated, and no later release of a record revives it. */
  lemma FreedTargetsStayOutdated(f: Fixed, s: State, id: Id, c: Id)
    requires Inv(f, s) && id in s.lru && c in s.recs && PooledTarget(f, s.recs[c])
    requires Outdated(s.recs, s.recs[c]) || s.recs[c].target == Some(id)
    ensures var t := Release(s, id); PooledTarget(f, t.recs[c]) && Outdated(t.recs, t.recs[c])
  {
    assert id in Elems(s.lru);
  }
}
