/**
  Local records of the DNS cache (external/dnsmasq/src/cache.c): those of hosts files and DHCP leases, which are
  hashed but never pooled. They are added by cache_hash, the DHCP ones are taken out together, and a reload takes
  out all records but those.
 */
module CacheLocal {
  import opened Options
  import opened Lists
  import opened CacheState
  import opened CacheLookup
  import opened CacheSweep
  import opened CacheInsert

  // ----- adding -----

  predicate Unchained(s: State, id: Id) {
    forall c | 0 <= c < |s.table| :: id !in s.table[c]
  }

  /** A local record outside the pool: newly allocated, or one that has been taken out of its chain. */
  predicate Addable(f: Fixed, s: State, id: Id, r: Rec) {
    id !in f.pool && Unchained(s, id) && Local(r) && InUse(r) && !PooledTarget(f, r)
  }

  lemma RecordedOk(f: Fixed, s: State, id: Id, r: Rec)
    requires Inv(f, s) && Addable(f, s, id, r)
    ensures Inv(f, s.(recs := s.recs[id := r]))
  {
    var t := s.(recs := s.recs[id := r]);
    forall c | 0 <= c < |t.table| ensures ChainOk(f, t.recs, |t.table|, t.table[c], c) {
      assert ChainOk(f, s.recs, |s.table|, s.table[c], c) && id !in s.table[c];
    }
    assert forall x | x in s.lru :: x in Elems(s.lru) && x != id;
    assert forall x | x in s.newChain :: x in Elems(s.newChain) && x != id;
    assert forall x | x in t.lru && InUse(t.recs[x]) :: Hashed(f, s, x) && Hashed(f, t, x);
    assert BigHolders(f, t.recs) == BigHolders(f, s.recs);
  }

  /** A DHCP record, unless it is an alias, takes a serial number. */
  function SerialsAfter(uid: int, r: Rec): int {
    if Dhcp in r.flags && Cname !in r.flags then uid + 1 else uid
  }

  /** The state after a local record has been hashed: it is in the chain of its name, and no other record is touched. */
  ghost predicate LocalAdded(f: Fixed, s: State, t: State, id: Id, r: Rec) {
    && t == s.(recs := s.recs[id := r], table := t.table, uid := SerialsAfter(s.uid, r)) && |t.table| == |s.table| > 0
    && (forall x | x in s.table[Bucket(f.mix, |s.table|, r.name)] :: x in t.recs) && t.table == HashIn(f.mix, t.recs, s.table, id)
    && forall c, x | 0 <= c < |s.table| :: x in t.table[c] <==> x in s.table[c] || (x == id && c == Bucket(f.mix, |s.table|, r.name))
  }

  lemma LocalAddedOk(f: Fixed, s: State, id: Id, r: Rec)
    requires Inv(f, s) && Addable(f, s, id, r)
    ensures var recs := s.recs[id := r];
            && (forall x | x in s.table[Bucket(f.mix, |s.table|, r.name)] :: x in recs)
            && var t := s.(recs := recs, table := HashIn(f.mix, recs, s.table, id));
               var t' := t.(uid := SerialsAfter(s.uid, r));
               Inv(f, t') && LocalAdded(f, s, t', id, r)
  {
    var u := s.(recs := s.recs[id := r]);
    RecordedOk(f, s, id, r);
    HashInOk(f, u, id);
    var t := u.(table := HashIn(f.mix, u.recs, u.table, id));
    assert forall x | x in t.lru && InUse(t.recs[x]) :: Hashed(f, u, x) && Hashed(f, t, x);
  }

  lemma ReadyToHash(f: Fixed, s: State, id: Id, r: Rec)
    requires Inv(f, s) && Addable(f, s, id, r)
    ensures var recs, chain := s.recs[id := r], s.table[Bucket(f.mix, |s.table|, r.name)];
            (forall x | x in chain :: x in recs) && Ordered(recs, chain)
  {
    var b := Bucket(f.mix, |s.table|, r.name);
    assert ChainOk(f, s.recs, |s.table|, s.table[b], b) && id !in s.table[b];
  }

  // ----- taking records out of a chain, one by one -----

  /** The first k records of a chain have been looked at, and those that satisfy p are still there. */
  ghost predicate Thinning(recs: map<Id, Rec>, p: Rec -> bool, before: seq<Id>, chain: seq<Id>, k: nat, i: nat) {
    && AllIn(recs, before) && k <= |before|
    && chain == Filter(recs, p, before[..k]) + before[k..] && i == |Filter(recs, p, before[..k])|
  }

  ghost function ThinningFrom(recs: map<Id, Rec>, p: Rec -> bool, before: seq<Id>, k: nat): (seq<Id>, nat) -> bool {
    (chain: seq<Id>, i: nat) => Thinning(recs, p, before, chain, k, i)
  }

  lemma ThinningBegins(recs: map<Id, Rec>, p: Rec -> bool, before: seq<Id>)
    requires AllIn(recs, before)
    ensures ThinningFrom(recs, p, before, 0)(before, 0)
  {
    assert before[..0] == [] && before[0..] == before;
  }

  lemma ThinningOn(recs: map<Id, Rec>, p: Rec -> bool, before: seq<Id>, chain: seq<Id>, k: nat, i: nat)
    requires ThinningFrom(recs, p, before, k)(chain, i) && i < |chain|
    ensures k < |before| && chain[i] == before[k] && before[k] in recs
    ensures if p(recs[before[k]]) then ThinningFrom(recs, p, before, k + 1)(chain, i + 1)
            else ThinningFrom(recs, p, before, k + 1)(RemoveAt(chain, i), i)
  {
    var q := Filter(recs, p, before[..k]);
    assert before[..k + 1][..k] == before[..k];
    assert before[k..] == [before[k]] + before[k + 1..];
    assert before[k] in before;
    assert chain == q + ([before[k]] + before[k + 1..]);
    assert RemoveAt(chain, i) == q + before[k + 1..];
    assert (q + [before[k]]) + before[k + 1..] == chain;
  }

  lemma ThinningEnds(recs: map<Id, Rec>, p: Rec -> bool, before: seq<Id>, chain: seq<Id>, k: nat, i: nat)
    requires ThinningFrom(recs, p, before, k)(chain, i) && i >= |chain|
    ensures k == |before| && chain == Filter(recs, p, before)
  {
    assert before[..|before|] == before;
  }

  lemma {:induction false} FilterOrdered(recs: map<Id, Rec>, p: Rec -> bool, ids: seq<Id>)
    requires AllIn(recs, ids) && Ordered(recs, ids)
    ensures Ordered(recs, Filter(recs, p, ids))
  {
    if ids != [] {
      var n := |ids| - 1;
      FilterOrdered(recs, p, ids[..n]);
      var q := Filter(recs, p, ids[..n]);
      forall k | 0 <= k < |q| ensures Class(recs[q[k]]) <= Class(recs[ids[n]]) {
        assert q[k] in q && q[k] in ids[..n];
        var j :| 0 <= j < n && ids[j] == q[k];
      }
    }
  }

  // ----- the DHCP records -----

  function NotDhcp(): Rec -> bool {
    (r: Rec) => Dhcp !in r.flags
  }

  /** From the first n chains the DHCP records have been taken out, and nothing else has changed. */
  ghost predicate Unleased(s: State, t: State, n: nat) {
    && t == s.(table := t.table) && n <= |t.table| == |s.table|
    && forall c | 0 <= c < |s.table| ::
         AllIn(s.recs, s.table[c]) && t.table[c] == if c < n then Filter(s.recs, NotDhcp(), s.table[c]) else s.table[c]
  }

  lemma UnleaseBegins(f: Fixed, s: State)
    requires TableOk(f, s)
    ensures Unleased(s, s, 0)
  {
    forall c | 0 <= c < |s.table| ensures AllIn(s.recs, s.table[c]) {
      assert ChainOk(f, s.recs, |s.table|, s.table[c], c);
    }
  }

  ghost function UnleasedFrom(s: State, n: nat): State -> bool {
    (t: State) => Unleased(s, t, n)
  }

  /** Taking a DHCP record out of its chain keeps the invariant. */
  lemma UnleaseOne(f: Fixed, s: State, b: nat, i: nat)
    requires InvOf(f)(s) && b < |s.table| && i < |s.table[b]| && s.table[b][i] in s.recs && Local(s.recs[s.table[b][i]])
    ensures InvOf(f)(Unhash(s, b, i))
  {
    DropOk(f, s, b, i);
  }

  lemma UnleaseChain(s: State, t: State, u: State, b: nat, k: nat, i: nat)
    requires UnleasedFrom(s, b)(t) && b < |t.table| && |u.table| == |t.table| && u == t.(table := t.table[b := u.table[b]])
    requires ThinningFrom(s.recs, NotDhcp(), s.table[b], k)(u.table[b], i) && i >= |u.table[b]|
    ensures UnleasedFrom(s, b + 1)(u)
  {
    ThinningEnds(s.recs, NotDhcp(), s.table[b], u.table[b], k, i);
  }

  // ----- the clearing loop of a reload -----

  /** Records that a reload leaves in their chains. */
  function Stays(): Rec -> bool {
    (r: Rec) => Dhcp in r.flags && Hosts !in r.flags
  }

  /** The records when those in done have been cleared: those of hosts files are gone, pooled ones out of use. */
  function ClearedRecs(recs: map<Id, Rec>, done: set<Id>): map<Id, Rec> {
    map id | id in recs && !(id in done && Hosts in recs[id].flags) ::
      if id in done && !Local(recs[id]) then recs[id].(flags := {}) else recs[id]
  }

  /** These records have been cleared, and their buffers are free. */
  ghost predicate RecsCleared(f: Fixed, s: State, recs: map<Id, Rec>, bigFree: nat, done: set<Id>) {
    recs == ClearedRecs(s.recs, done) && |BigHolders(f, recs)| + bigFree == |BigHolders(f, s.recs)| + s.bigFree
  }

  function StayingIn(recs: map<Id, Rec>, chain: seq<Id>): seq<Id> {
    if AllIn(recs, chain) then Filter(recs, Stays(), chain) else chain
  }

  /** The chains when the first b of them have been cleared. */
  function ClearedTable(s: State, b: nat): seq<seq<Id>> {
    seq(|s.table|, c requires 0 <= c < |s.table| => if c < b then StayingIn(s.recs, s.table[c]) else s.table[c])
  }

  function ClearRecs(recs: map<Id, Rec>, id: Id): map<Id, Rec>
    requires id in recs
  {
    if Hosts in recs[id].flags then recs - {id}
    else if Dhcp in recs[id].flags then recs else recs[id := recs[id].(flags := {})]
  }

  function ClearFree(recs: map<Id, Rec>, id: Id, bigFree: nat): nat
    requires id in recs
  {
    if !Local(recs[id]) && BigName in recs[id].flags then bigFree + 1 else bigFree
  }

  lemma ClearOne(f: Fixed, s: State, recs: map<Id, Rec>, bigFree: nat, done: set<Id>, id: Id)
    requires PoolOk(f, s) && RecsCleared(f, s, recs, bigFree, done) && id !in done && id in recs
    requires id in f.pool <==> !Local(s.recs[id])
    ensures RecsCleared(f, s, ClearRecs(recs, id), ClearFree(recs, id, bigFree), done + {id})
  {
    var after := ClearRecs(recs, id);
    assert after == ClearedRecs(s.recs, done + {id});
    if !Local(recs[id]) && BigName in recs[id].flags {
      assert BigHolders(f, after) == BigHolders(f, recs) - {id} && id in BigHolders(f, recs);
    } else {
      assert BigHolders(f, after) == BigHolders(f, recs);
    }
  }

  lemma PooledOrLocal(f: Fixed, s: State, b: nat, id: Id)
    requires Inv(f, s) && b < |s.table| && id in s.table[b]
    ensures id in s.recs && (id in f.pool <==> !Local(s.recs[id]))
  {
    assert ChainOk(f, s.recs, |s.table|, s.table[b], b);
  }

  /** The first k records of chain b, and the chains before it, have been cleared. */
  ghost predicate ClearingIn(f: Fixed, s: State, recs: map<Id, Rec>, bigFree: nat, b: nat, k: nat) {
    b < |s.table| && k <= |s.table[b]| && RecsCleared(f, s, recs, bigFree, ElemsOf(s.table, b) + Elems(s.table[b][..k]))
  }

  ghost function ClearingFrom(f: Fixed, s: State, b: nat, k: nat): (map<Id, Rec>, nat) -> bool {
    (recs: map<Id, Rec>, bigFree: nat) => ClearingIn(f, s, recs, bigFree, b, k)
  }

  lemma NotCleared(f: Fixed, s: State, b: nat, k: nat)
    requires Inv(f, s) && b < |s.table| && k < |s.table[b]|
    ensures var id, done := s.table[b][k], ElemsOf(s.table, b) + Elems(s.table[b][..k]);
            && id in s.recs && (id in f.pool <==> !Local(s.recs[id])) && id !in done
            && ElemsOf(s.table, b) + Elems(s.table[b][..k + 1]) == done + {id}
  {
    var id, chain := s.table[b][k], s.table[b];
    NextChain(f, s, b);
    PooledOrLocal(f, s, b, id);
    assert id !in chain[..k];
    assert chain[..k + 1] == chain[..k] + [id];
    assert Elems(chain[..k + 1]) == Elems(chain[..k]) + {id};
  }

  lemma ClearNext(f: Fixed, s: State, recs: map<Id, Rec>, bigFree: nat, b: nat, k: nat)
    requires InvOf(f)(s) && b < |s.table| && k < |s.table[b]| && ClearingFrom(f, s, b, k)(recs, bigFree)
    ensures var id := s.table[b][k];
            && id in recs && id in s.recs && recs[id] == s.recs[id]
            && ClearingFrom(f, s, b, k + 1)(ClearRecs(recs, id), ClearFree(recs, id, bigFree))
  {
    NotCleared(f, s, b, k);
    ClearOne(f, s, recs, bigFree, ElemsOf(s.table, b) + Elems(s.table[b][..k]), s.table[b][k]);
  }

  /** The first b chains have been cleared. */
  ghost predicate Clearing(f: Fixed, s: State, t: State, b: nat) {
    && t == s.(recs := t.recs, table := t.table, bigFree := t.bigFree) && b <= |t.table| == |s.table|
    && RecsCleared(f, s, t.recs, t.bigFree, ElemsOf(s.table, b)) && t.table == ClearedTable(s, b)
  }

  ghost function ClearedFrom(f: Fixed, s: State, b: nat): State -> bool {
    (t: State) => Clearing(f, s, t, b)
  }

  lemma ClearingBegins(f: Fixed, s: State)
    requires Inv(f, s)
    ensures ClearedFrom(f, s, 0)(s)
  {
    assert ElemsOf(s.table, 0) == {};
    assert s.recs == ClearedRecs(s.recs, {});
    assert s.table == ClearedTable(s, 0);
  }

  lemma ChainBegins(f: Fixed, s: State, t: State, b: nat)
    requires InvOf(f)(s) && ClearedFrom(f, s, b)(t) && b < |t.table|
    ensures |s.table| == |t.table|
    ensures ClearingFrom(f, s, b, 0)(t.recs, t.bigFree) && ThinningFrom(s.recs, Stays(), s.table[b], 0)(t.table[b], 0)
  {
    var chain := s.table[b];
    NextChain(f, s, b);
    ThinningBegins(s.recs, Stays(), chain);
    assert chain[..0] == [];
    assert ElemsOf(s.table, b) + Elems(chain[..0]) == ElemsOf(s.table, b);
  }

  lemma ChainEnds(f: Fixed, s: State, t: State, u: State, b: nat, k: nat, i: nat)
    requires InvOf(f)(s) && ClearedFrom(f, s, b)(t) && b < |s.table| && ClearingFrom(f, s, b, k)(u.recs, u.bigFree)
    requires |u.table| == |t.table| && u == t.(recs := u.recs, table := t.table[b := u.table[b]], bigFree := u.bigFree)
    requires ThinningFrom(s.recs, Stays(), s.table[b], k)(u.table[b], i) && i >= |u.table[b]|
    ensures ClearedFrom(f, s, b + 1)(u)
  {
    ThinningEnds(s.recs, Stays(), s.table[b], u.table[b], k, i);
    NextChain(f, s, b);
    assert s.table[b][..k] == s.table[b];
    assert u.table == ClearedTable(s, b + 1);
  }

  /** After the loop: only DHCP records are hashed, every pooled record is free where it was, and no buffer is lost. */
  ghost predicate Reloaded(f: Fixed, s: State, t: State) {
    && t == s.(recs := t.recs, table := t.table, bigFree := t.bigFree) && |t.table| == |s.table|
    && RecsCleared(f, s, t.recs, t.bigFree, ElemsOf(s.table, |s.table|)) && t.table == ClearedTable(s, |s.table|)
  }

  lemma InAChain(s: State, c: nat, id: Id)
    requires c < |s.table| && id in s.table[c]
    ensures id in ElemsOf(s.table, |s.table|)
  {}

  lemma ReloadedTableOk(f: Fixed, s: State, t: State)
    requires TableOk(f, s) && Reloaded(f, s, t)
    ensures TableOk(f, t)
  {
    forall c | 0 <= c < |t.table| ensures ChainOk(f, t.recs, |t.table|, t.table[c], c) {
      assert ChainOk(f, s.recs, |s.table|, s.table[c], c);
      StayingChainOk(f, s, t.recs, s.table[c], c);
    }
  }

  lemma StayingChainOk(f: Fixed, s: State, recs: map<Id, Rec>, chain: seq<Id>, c: nat)
    requires |s.table| > 0 && ChainOk(f, s.recs, |s.table|, chain, c) && AllIn(s.recs, chain)
    requires forall id | id in s.recs && Stays()(s.recs[id]) :: id in recs && recs[id] == s.recs[id]
    ensures ChainOk(f, recs, |s.table|, Filter(s.recs, Stays(), chain), c)
  {
    FilterNoDup(s.recs, Stays(), chain);
    FilterOrdered(s.recs, Stays(), chain);
  }

  lemma ReloadedBigOk(f: Fixed, s: State, t: State)
    requires BigOk(f, s) && Reloaded(f, s, t)
    ensures BigOk(f, t)
  {
    assert forall id | id in BigHolders(f, t.recs) :: id in BigHolders(f, s.recs) && t.recs[id] == s.recs[id];
  }

  lemma ReloadedUidOk(f: Fixed, s: State, t: State)
    requires UidOk(f, s) && Reloaded(f, s, t)
    ensures UidOk(f, t)
  {}

  /** No record on the LRU list is in use after a reload. */
  lemma AllFreeAfter(f: Fixed, s: State, t: State, id: Id)
    requires Inv(f, s) && Reloaded(f, s, t) && id in s.lru
    ensures id in t.recs && !InUse(t.recs[id]) && !Local(t.recs[id])
  {
    assert id in Elems(s.lru) && id in f.pool;
    if InUse(s.recs[id]) {
      assert Hashed(f, s, id);
      InAChain(s, Bucket(f.mix, |s.table|, s.recs[id].name), id);
    }
  }

  lemma NewIsKept(f: Fixed, s: State, t: State, id: Id)
    requires Inv(f, s) && Reloaded(f, s, t) && id in s.newChain
    ensures id in t.recs && t.recs[id] == s.recs[id]
  {
    assert id in Elems(s.newChain) && id in f.pool && id !in Elems(s.lru);
  }

  lemma ReloadedPoolOk(f: Fixed, s: State, t: State)
    requires Inv(f, s) && Reloaded(f, s, t)
    ensures PoolOk(f, t)
  {
    forall id | id in t.lru ensures id in t.recs && !InUse(t.recs[id]) && !Local(t.recs[id]) {
      AllFreeAfter(f, s, t, id);
    }
    forall id | id in t.newChain ensures id in t.recs && t.recs[id] == s.recs[id] {
      NewIsKept(f, s, t, id);
    }
    forall id | id in f.pool ensures id in t.recs && !Local(t.recs[id]) {
      assert id in Elems(s.lru) || id in Elems(s.newChain);
    }
  }

  lemma ReloadedLinksOk(f: Fixed, s: State, t: State)
    requires Inv(f, s) && Reloaded(f, s, t) && PoolOk(f, t)
    ensures LinksOk(f, t)
  {
    forall id | id in t.lru ensures id in t.recs && !InUse(t.recs[id]) {
      AllFreeAfter(f, s, t, id);
    }
    forall c, id | 0 <= c < |t.table| && id in t.table[c] && id in t.recs
      ensures if id in f.pool then id in t.lru else Local(t.recs[id])
    {
      assert id in s.table[c];
    }
  }

  /** A reload keeps the invariant. */
  lemma ReloadedOk(f: Fixed, s: State, t: State)
    requires Inv(f, s) && Reloaded(f, s, t)
    ensures InvOf(f)(t)
  {
    ReloadedTableOk(f, s, t);
    ReloadedPoolOk(f, s, t);
    ReloadedLinksOk(f, s, t);
    ReloadedBigOk(f, s, t);
    ReloadedUidOk(f, s, t);
  }

  ghost function ReloadedFrom(f: Fixed, s: State): State -> bool {
    (t: State) => Reloaded(f, s, t)
  }

  lemma ReloadEnds(f: Fixed, s: State, t: State, b: nat)
    requires InvOf(f)(s) && ClearedFrom(f, s, b)(t) && b >= |t.table|
    ensures InvOf(f)(t) && ReloadedFrom(f, s)(t)
  {
    ReloadedOk(f, s, t);
  }
}
