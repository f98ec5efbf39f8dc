/**
  Adding records to the DNS cache (external/dnsmasq/src/cache.c): the place of a record in its
  hash chain, and the steps of an insert (a record taken from the tail of the LRU list, committed
  to the chains, or given back), each keeping the cache invariant.
 */
module CacheInsert {
  import opened Options
  import opened Lists
  import opened CacheState

  /** The first place in a chain whose record is of class c or later. */
  function Place(recs: map<Id, Rec>, chain: seq<Id>, c: int): (k: nat)
    requires forall id | id in chain :: id in recs
    ensures k <= |chain| && (k < |chain| ==> Class(recs[chain[k]]) >= c)
    ensures forall i | 0 <= i < k :: Class(recs[chain[i]]) < c
  {
    if chain == [] || Class(recs[chain[0]]) >= c then 0 else 1 + Place(recs, chain[1..], c)
  }

  /** cache_hash: into the chain of the name, before the records of the same class. */
  function HashIn(mix: string -> nat, recs: map<Id, Rec>, table: seq<seq<Id>>, id: Id): (t: seq<seq<Id>>)
    requires |table| > 0 && id in recs
    requires forall x | x in table[Bucket(mix, |table|, recs[id].name)] :: x in recs
    ensures |t| == |table|
  {
    var b := Bucket(mix, |table|, recs[id].name);
    table[b := InsertAt(table[b], Place(recs, table[b], Class(recs[id])), id)]
  }

  lemma OrderedInsert(recs: map<Id, Rec>, chain: seq<Id>, id: Id)
    requires id in recs && (forall x | x in chain :: x in recs) && Ordered(recs, chain)
    ensures var r := InsertAt(chain, Place(recs, chain, Class(recs[id])), id);
            (forall x | x in r :: x in recs) && Ordered(recs, r)
  {
    var k := Place(recs, chain, Class(recs[id]));
    var r := InsertAt(chain, k, id);
    forall i | 0 <= i < |r| ensures r[i] == if i == k then id else chain[if i < k then i else i - 1] {}
    forall i | k <= i < |chain| ensures Class(recs[chain[i]]) >= Class(recs[id]) {
      assert Class(recs[chain[k]]) >= Class(recs[id]);
    }
  }

  /** Hashing a record keeps every chain in order and adds that record only. */
  lemma HashInOk(f: Fixed, s: State, id: Id)
    requires TableOk(f, s) && id in s.recs && InUse(s.recs[id]) && !Hashed(f, s, id)
    ensures forall x | x in s.table[Bucket(f.mix, |s.table|, s.recs[id].name)] :: x in s.recs
    ensures TableOk(f, s.(table := HashIn(f.mix, s.recs, s.table, id)))
    ensures forall c, x | 0 <= c < |s.table| ::
              x in HashIn(f.mix, s.recs, s.table, id)[c]
              <==> x in s.table[c] || (x == id && c == Bucket(f.mix, |s.table|, s.recs[id].name))
  {
    var b := Bucket(f.mix, |s.table|, s.recs[id].name);
    var chain := s.table[b];
    assert ChainOk(f, s.recs, |s.table|, chain, b);
    var k := Place(s.recs, chain, Class(s.recs[id]));
    OrderedInsert(s.recs, chain, id);
    InsertAtElems(chain, k, id);
    var r := InsertAt(chain, k, id);
    assert forall x :: x in r <==> x in Elems(r);
    assert forall x :: x in chain <==> x in Elems(chain);
    assert ChainOk(f, s.recs, |s.table|, r, b);
    var t := s.(table := HashIn(f.mix, s.recs, s.table, id));
    forall c | 0 <= c < |t.table| ensures ChainOk(f, t.recs, |t.table|, t.table[c], c) {
      assert ChainOk(f, s.recs, |s.table|, s.table[c], c);
    }
  }

  // ----- the chain of new records -----

  /** cache_end_insert, a record that stays: hashed, and the most recently used. */
  function Commit(f: Fixed, s: State): State
    requires TableOk(f, s) && s.newChain != [] && s.newChain[0] in s.recs
  {
    var id := s.newChain[0];
    var b := Bucket(f.mix, |s.table|, s.recs[id].name);
    assert ChainOk(f, s.recs, |s.table|, s.table[b], b);
    s.(table := HashIn(f.mix, s.recs, s.table, id), lru := [id] + s.lru, newChain := s.newChain[1..])
  }

  /** cache_free of the first new record. */
  function Abandon(s: State): State
    requires s.newChain != [] && s.newChain[0] in s.recs
  {
    var id := s.newChain[0];
    s.(recs := s.recs[id := FreedRec(s.recs[id], s.uid)], lru := s.lru + [id], newChain := s.newChain[1..],
       bigFree := if BigName in s.recs[id].flags then s.bigFree + 1 else s.bigFree, uid := s.uid + 1)
  }

  /** What is stored in a record taken for an insert. */
  function Filled(r: Rec, flags: set<Flag>, name: string, addr: Option<seq<int>>, ttd: int, big: bool): Rec {
    r.(flags := flags - {Config} + (if big then {BigName} else {}), name := name,
       addr := if addr.Some? then addr.value else r.addr, target := None, ttd := ttd)
  }

  /** cache_insert, once the record at the tail of the LRU list is free: move it to the new chain. */
  function Grab(s: State, r: Rec): State
    requires s.lru != []
  {
    var n := |s.lru| - 1;
    var id := s.lru[n];
    s.(recs := s.recs[id := r], lru := s.lru[..n], newChain := [id] + s.newChain)
  }

  /** The records of an unfinished insert are the same in both states. */
  predicate NewKept(s: State, t: State) {
    t.newChain == s.newChain && forall x | x in s.newChain :: x in s.recs && x in t.recs && t.recs[x] == s.recs[x]
  }

  lemma NewKeptSelf(f: Fixed, s: State)
    requires Inv(f, s)
    ensures NewKept(s, s)
  {
    forall x | x in s.newChain ensures x in s.recs {
      NewNotHashed(f, s, x);
    }
  }

  lemma NewKeptTwice(s: State, t: State, u: State)
    requires NewKept(s, t) && NewKept(t, u)
    ensures NewKept(s, u)
  {}

  /** The first i new records of s have been given back. */
  ghost predicate GivenBack(s: State, i: nat, t: State) {
    && i <= |s.newChain| && t.newChain == s.newChain[i..] && t.lru == s.lru + s.newChain[..i]
    && t.recs.Keys == s.recs.Keys && t.table == s.table
    && (forall id | id in s.recs && id !in s.newChain :: t.recs[id] == s.recs[id])
    && (forall id | id in s.recs && id in s.newChain[..i] :: !InUse(t.recs[id]))
  }

  lemma GiveBackNext(s: State, i: nat, t: State)
    requires GivenBack(s, i, t) && t.newChain != [] && t.newChain[0] in t.recs
    ensures GivenBack(s, i + 1, Abandon(t))
  {
    var id := t.newChain[0];
    assert s.newChain[..i + 1] == s.newChain[..i] + [id];
    assert id in s.newChain;
  }

  /** A record of the new chain is in no hash chain. */
  lemma NewNotHashed(f: Fixed, s: State, id: Id)
    requires Inv(f, s) && id in s.newChain
    ensures id in s.recs && id in f.pool && id !in s.lru && forall c | 0 <= c < |s.table| :: id !in s.table[c]
  {
    assert id in Elems(s.newChain);
    assert id in s.lru ==> id in Elems(s.lru);
  }

  lemma FirstOfNew(f: Fixed, s: State)
    requires PoolOk(f, s) && s.newChain != []
    ensures var id, rest := s.newChain[0], s.newChain[1..];
            && NoDup(rest) && id !in rest && id !in s.lru && Elems(s.newChain) == Elems(rest) + {id}
  {
    var id, rest := s.newChain[0], s.newChain[1..];
    assert s.newChain == [id] + rest;
    assert id in Elems(s.newChain);
    assert id in s.lru ==> id in Elems(s.lru);
  }

  lemma CommitOk(f: Fixed, s: State)
    requires Inv(f, s) && s.newChain != [] && s.newChain[0] in s.recs
    ensures Inv(f, Commit(f, s)) && Hashed(f, Commit(f, s), s.newChain[0])
  {
    var id := s.newChain[0];
    NewNotHashed(f, s, id);
    FirstOfNew(f, s);
    HashInOk(f, s, id);
    var t := Commit(f, s);
    CommitPoolOk(f, s);
    forall x | x in t.lru && InUse(t.recs[x]) ensures Hashed(f, t, x) {
      assert x != id ==> x in s.lru && Hashed(f, s, x);
    }
  }

  lemma CommitPoolOk(f: Fixed, s: State)
    requires PoolOk(f, s) && s.newChain != []
    ensures PoolOk(f, s.(lru := [s.newChain[0]] + s.lru, newChain := s.newChain[1..]))
  {
    var id := s.newChain[0];
    FirstOfNew(f, s);
    assert Elems([id] + s.lru) == Elems(s.lru) + {id};
    NoDupAppend(s.lru, id);
    assert forall x | x in s.newChain[1..] :: x in s.newChain;
    assert id in s.newChain;
  }

  lemma AbandonPoolOk(f: Fixed, s: State)
    requires PoolOk(f, s) && s.newChain != [] && s.newChain[0] in s.recs
    ensures PoolOk(f, Abandon(s))
  {
    var id := s.newChain[0];
    FirstOfNew(f, s);
    assert Elems(s.lru + [id]) == Elems(s.lru) + {id};
    NoDupAppend(s.lru, id);
    assert forall x | x in s.newChain[1..] :: x in s.newChain;
  }

  lemma AbandonOk(f: Fixed, s: State)
    requires Inv(f, s) && s.newChain != [] && s.newChain[0] in s.recs
    ensures Inv(f, Abandon(s))
  {
    var id, t := s.newChain[0], Abandon(s);
    NewNotHashed(f, s, id);
    AbandonPoolOk(f, s);
    assert BigHolders(f, t.recs) == BigHolders(f, s.recs) - {id};
    forall c | 0 <= c < |t.table| ensures ChainOk(f, t.recs, |t.table|, t.table[c], c) {
      assert ChainOk(f, s.recs, |s.table|, s.table[c], c);
    }
    forall x | x in t.lru && InUse(t.recs[x]) ensures Hashed(f, t, x) {
      assert x != id ==> x in s.lru && Hashed(f, s, x);
    }
  }

  lemma GrabPoolOk(f: Fixed, s: State, r: Rec)
    requires PoolOk(f, s) && s.lru != [] && InUse(r) && !Local(r) && Typed(r)
    ensures PoolOk(f, Grab(s, r))
  {
    var n := |s.lru| - 1;
    var id := s.lru[n];
    assert s.lru == s.lru[..n] + [id];
    assert Elems(s.lru) == Elems(s.lru[..n]) + {id};
    assert id in Elems(s.lru);
    assert id !in s.newChain by { assert id in s.newChain ==> id in Elems(s.newChain); }
    assert Elems([id] + s.newChain) == Elems(s.newChain) + {id};
    NoDupAppend(s.newChain, id);
    assert forall x | x in s.lru[..n] :: x in s.lru && x != id;
  }

  /** Taking the free tail for a new record keeps the invariant, if a long name took a buffer. */
  lemma GrabOk(f: Fixed, s: State, r: Rec)
    requires TableOk(f, s) && PoolOk(f, s) && LinksOk(f, s) && UidOk(f, s)
    requires s.lru != [] && s.lru[|s.lru| - 1] in s.recs && !InUse(s.recs[s.lru[|s.lru| - 1]])
    requires |BigHolders(f, s.recs)| + s.bigFree + s.bigLeft + (if BigName in r.flags then 1 else 0) == f.bigTotal
    requires forall id | id in BigHolders(f, s.recs) :: InUse(s.recs[id])
    requires InUse(r) && !Local(r) && Typed(r) && !PooledTarget(f, r) && r.uid == s.recs[s.lru[|s.lru| - 1]].uid
    ensures Inv(f, Grab(s, r))
  {
    GrabPoolOk(f, s, r);
    GrabTableOk(f, s, r);
    GrabLinksOk(f, s, r);
    assert s.lru[|s.lru| - 1] in Elems(s.lru);
    GrabBigOk(f, s, r);
  }

  lemma GrabTableOk(f: Fixed, s: State, r: Rec)
    requires TableOk(f, s) && s.lru != [] && s.lru[|s.lru| - 1] in s.recs && !InUse(s.recs[s.lru[|s.lru| - 1]])
    ensures TableOk(f, Grab(s, r))
  {
    var t := Grab(s, r);
    forall c | 0 <= c < |t.table| ensures ChainOk(f, t.recs, |t.table|, t.table[c], c) {
      assert ChainOk(f, s.recs, |s.table|, s.table[c], c);
    }
  }

  lemma GrabBigOk(f: Fixed, s: State, r: Rec)
    requires s.lru != [] && s.lru[|s.lru| - 1] in s.recs && s.lru[|s.lru| - 1] in f.pool
    requires !InUse(s.recs[s.lru[|s.lru| - 1]]) && InUse(r)
    requires |BigHolders(f, s.recs)| + s.bigFree + s.bigLeft + (if BigName in r.flags then 1 else 0) == f.bigTotal
    requires forall id | id in BigHolders(f, s.recs) :: InUse(s.recs[id])
    ensures BigOk(f, Grab(s, r))
  {
    var id, t := s.lru[|s.lru| - 1], Grab(s, r);
    assert id !in BigHolders(f, s.recs);
    assert BigHolders(f, t.recs) == BigHolders(f, s.recs) + (if BigName in r.flags then {id} else {});
  }

  lemma GrabLinksOk(f: Fixed, s: State, r: Rec)
    requires TableOk(f, s) && PoolOk(f, s) && LinksOk(f, s)
    requires s.lru != [] && s.lru[|s.lru| - 1] in s.recs && !InUse(s.recs[s.lru[|s.lru| - 1]])
    ensures forall x | x in Grab(s, r).lru :: x in Grab(s, r).recs
    ensures LinksOk(f, Grab(s, r))
  {
    var n := |s.lru| - 1;
    var id, t := s.lru[n], Grab(s, r);
    assert forall x | x in t.lru :: x in s.lru && x != id;
    forall x | x in t.lru && InUse(t.recs[x]) ensures Hashed(f, t, x) {
      assert Hashed(f, s, x);
    }
    forall c, x | 0 <= c < |t.table| && x in t.table[c] && x in t.recs
      ensures if x in f.pool then x in t.lru else Local(t.recs[x])
    {
      assert ChainOk(f, s.recs, |s.table|, s.table[c], c);
      assert x != id;
      if x in s.lru {
        var i := IndexOf(s.lru, x);
        assert t.lru[i] == x;
      }
    }
  }

  /** Giving a new CNAME its target keeps the invariant. */
  lemma TargetOk(f: Fixed, s: State, id: Id, target: Id)
    requires Inv(f, s) && id in s.newChain && target in s.newChain
    ensures id in s.recs && target in s.recs
    ensures Inv(f, s.(recs := s.recs[id := s.recs[id].(target := Some(target), targetUid := s.recs[target].uid)]))
  {
    NewNotHashed(f, s, id);
    NewNotHashed(f, s, target);
    var t := s.(recs := s.recs[id := s.recs[id].(target := Some(target), targetUid := s.recs[target].uid)]);
    TargetParts(f, s, t, id);
  }

  lemma TargetParts(f: Fixed, s: State, t: State, id: Id)
    requires TableOk(f, s) && PoolOk(f, s) && LinksOk(f, s) && BigOk(f, s) && id in s.recs && id !in s.lru
    requires forall c | 0 <= c < |s.table| :: id !in s.table[c]
    requires id in t.recs && t == s.(recs := s.recs[id := t.recs[id]]) && t.recs[id].flags == s.recs[id].flags
    ensures TableOk(f, t) && PoolOk(f, t) && LinksOk(f, t) && BigOk(f, t)
  {
    forall c | 0 <= c < |t.table| ensures ChainOk(f, t.recs, |t.table|, t.table[c], c) {
      assert ChainOk(f, s.recs, |s.table|, s.table[c], c);
    }
    assert BigHolders(f, t.recs) == BigHolders(f, s.recs);
    assert forall x | x in t.lru && InUse(t.recs[x]) :: Hashed(f, s, x) && Hashed(f, t, x);
  }

  // ----- committing -----

  /** One step of cache_end_insert: a CNAME without its target is given back, any other record committed. */
  function CommitOne(f: Fixed, s: State): State
    requires TableOk(f, s) && s.newChain != [] && s.newChain[0] in s.recs
  {
    if Outdated(s.recs, s.recs[s.newChain[0]]) then Abandon(s) else Commit(f, s)
  }

  /** A CNAME whose target is missing, or was itself given back, is given back. */
  predicate GivesBack(recs: map<Id, Rec>, given: seq<Id>, id: Id)
    requires id in recs
  {
    var r := recs[id];
    Outdated(recs, r) || (Cname in r.flags && r.target.Some? && r.target.value in given)
  }

  /** Of these new records, taken in turn, those that are given back. */
  function Returned(recs: map<Id, Rec>, ids: seq<Id>): (g: seq<Id>)
    requires forall id | id in ids :: id in recs
    ensures forall id | id in g :: id in ids
  {
    if ids == [] then []
    else
      var n := |ids| - 1;
      var g := Returned(recs, ids[..n]);
      if GivesBack(recs, g, ids[n]) then g + [ids[n]] else g
  }

  /** And those that stay. */
  function Staying(recs: map<Id, Rec>, ids: seq<Id>): (r: seq<Id>)
    requires forall id | id in ids :: id in recs
    ensures forall id | id in r :: id in ids
  {
    if ids == [] then []
    else
      var n := |ids| - 1;
      Staying(recs, ids[..n]) + if GivesBack(recs, Returned(recs, ids[..n]), ids[n]) then [] else [ids[n]]
  }

  /**
    The first i new records of s have been settled: those that stay are hashed and lead the LRU list, the last one
    first; those given back are free at its tail; everything else is as it was and where it was.
   */
  ghost predicate Committed(f: Fixed, s: State, i: nat, t: State) {
    && i <= |s.newChain| && (forall id | id in s.newChain :: id in s.recs)
    && Settled(f, s, t, s.newChain[i..], Staying(s.recs, s.newChain[..i]), Returned(s.recs, s.newChain[..i]))
  }

  ghost predicate Settled(f: Fixed, s: State, t: State, rest: seq<Id>, stay: seq<Id>, given: seq<Id>) {
    && t.newChain == rest && t.lru == Backwards(stay) + s.lru + given
    && CommittedRecs(s, t, given) && ChainsGrown(f, s, t, stay)
  }

  /** The chains hold what they held, and the records that stay. */
  ghost predicate ChainsGrown(f: Fixed, s: State, t: State, stay: seq<Id>) {
    && |t.table| == |s.table| > 0
    && forall c, id | 0 <= c < |s.table| ::
         id in t.table[c] <==> id in s.table[c] || (id in stay && id in s.recs && c == Bucket(f.mix, |s.table|, s.recs[id].name))
  }

  /** Only the records given back have changed. */
  predicate CommittedRecs(s: State, t: State, given: seq<Id>) {
    && t.recs.Keys == s.recs.Keys && s.uid <= t.uid
    && (forall id | id in s.recs && id !in given :: t.recs[id] == s.recs[id])
    && (forall id | id in given && id in t.recs :: !InUse(t.recs[id]) && t.recs[id].uid >= s.uid)
  }

  lemma CommitReady(f: Fixed, s: State)
    requires Inv(f, s) && s.newChain != []
    ensures CanCommit(f, s)
  {
    NewNotHashed(f, s, s.newChain[0]);
    var b := Bucket(f.mix, |s.table|, s.recs[s.newChain[0]].name);
    assert ChainOk(f, s.recs, |s.table|, s.table[b], b);
  }

  /** What is outdated when its turn comes. */
  lemma OutdatedInTurn(f: Fixed, s: State, t: State, given: seq<Id>, id: Id)
    requires UidOk(f, s) && CommittedRecs(s, t, given) && id in s.recs && id !in given && forall x | x in given :: x in f.pool
    ensures t.recs[id] == s.recs[id] && (Outdated(t.recs, t.recs[id]) <==> GivesBack(s.recs, given, id))
  {
    var r := s.recs[id];
    if Cname in r.flags && r.target.Some? && r.target.value in s.recs {
      assert r.target.value in given ==> PooledTarget(f, r);
    }
  }

  lemma NewIsPooled(f: Fixed, s: State)
    requires PoolOk(f, s)
    ensures forall id | id in s.newChain :: id in f.pool && id in s.recs
  {
    assert forall id | id in s.newChain :: id in Elems(s.newChain);
  }

  lemma CommitNext(f: Fixed, s: State, i: nat, t: State)
    requires Inv(f, s) && Inv(f, t) && Committed(f, s, i, t) && t.newChain != [] && t.newChain[0] in t.recs
    ensures Inv(f, CommitOne(f, t)) && Committed(f, s, i + 1, CommitOne(f, t))
  {
    var id, seen, rest := t.newChain[0], s.newChain[..i], s.newChain[i + 1..];
    NewIsPooled(f, s);
    CutAt(s.newChain, i);
    SettledNext(f, s, t, rest, seen, id);
  }

  lemma CutAt(ids: seq<Id>, i: nat)
    requires i < |ids| && NoDup(ids)
    ensures ids[..i + 1] == ids[..i] + [ids[i]] && ids[i..] == [ids[i]] + ids[i + 1..] && ids[i] !in ids[..i]
  {}

  lemma TurnOf(recs: map<Id, Rec>, seen: seq<Id>, id: Id)
    requires id in recs && forall x | x in seen :: x in recs
    ensures var back := GivesBack(recs, Returned(recs, seen), id);
            && Returned(recs, seen + [id]) == (if back then Returned(recs, seen) + [id] else Returned(recs, seen))
            && Staying(recs, seen + [id]) == (if back then Staying(recs, seen) else Staying(recs, seen) + [id])
  {
    assert (seen + [id])[..|seen|] == seen;
  }

  lemma SettledNext(f: Fixed, s: State, t: State, rest: seq<Id>, seen: seq<Id>, id: Id)
    requires UidOk(f, s) && Inv(f, t) && id in s.recs && (forall x | x in seen :: x in s.recs && x in f.pool) && id !in seen
    requires Settled(f, s, t, [id] + rest, Staying(s.recs, seen), Returned(s.recs, seen)) && id in t.recs
    ensures Inv(f, CommitOne(f, t))
    ensures Settled(f, s, CommitOne(f, t), rest, Staying(s.recs, seen + [id]), Returned(s.recs, seen + [id]))
  {
    var stay, given := Staying(s.recs, seen), Returned(s.recs, seen);
    TurnOf(s.recs, seen, id);
    OutdatedInTurn(f, s, t, given, id);
    if Outdated(t.recs, t.recs[id]) {
      AbandonOk(f, t);
      SettledBack(f, s, t, rest, stay, given, id);
    } else {
      NewNotHashed(f, t, id);
      CommitOk(f, t);
      SettledOn(f, s, t, rest, stay, given, id);
    }
  }

  lemma SettledBack(f: Fixed, s: State, t: State, rest: seq<Id>, stay: seq<Id>, given: seq<Id>, id: Id)
    requires Settled(f, s, t, [id] + rest, stay, given) && id in t.recs && id in s.recs
    ensures Settled(f, s, Abandon(t), rest, stay, given + [id])
  {
    assert Backwards(stay) + s.lru + given + [id] == Backwards(stay) + s.lru + (given + [id]);
  }

  lemma SettledOn(f: Fixed, s: State, t: State, rest: seq<Id>, stay: seq<Id>, given: seq<Id>, id: Id)
    requires TableOk(f, t) && Settled(f, s, t, [id] + rest, stay, given) && id in t.recs && id in s.recs
    requires id !in given && !Hashed(f, t, id) && InUse(t.recs[id])
    ensures Settled(f, s, Commit(f, t), rest, stay + [id], given)
  {
    ChainsGrownOn(f, s, t, stay, id);
    BackwardsSnoc(stay, id);
    assert [id] + (Backwards(stay) + s.lru + given) == ([id] + Backwards(stay)) + s.lru + given;
  }

  lemma ChainsGrownOn(f: Fixed, s: State, t: State, stay: seq<Id>, id: Id)
    requires TableOk(f, t) && ChainsGrown(f, s, t, stay) && t.newChain != [] && t.newChain[0] == id
    requires id in t.recs && id in s.recs && t.recs[id] == s.recs[id] && !Hashed(f, t, id) && InUse(t.recs[id])
    ensures ChainsGrown(f, s, Commit(f, t), stay + [id])
  {
    HashInOk(f, t, id);
    var table := Commit(f, t).table;
    forall c, x | 0 <= c < |s.table|
      ensures x in table[c] <==> x in s.table[c] || (x in stay + [id] && x in s.recs && c == Bucket(f.mix, |s.table|, s.recs[x].name))
    {
      assert x in stay + [id] <==> x in stay || x == id;
      assert x in table[c] <==> x in t.table[c] || (x == id && c == Bucket(f.mix, |s.table|, s.recs[id].name));
      assert x in t.table[c] <==> x in s.table[c] || (x in stay && x in s.recs && c == Bucket(f.mix, |s.table|, s.recs[x].name));
    }
  }

  lemma BackwardsSnoc(q: seq<Id>, x: Id)
    ensures Backwards(q + [x]) == [x] + Backwards(q)
  {
    assert (q + [x])[..|q|] == q;
  }

  ghost predicate Committing(f: Fixed, s: State, i: nat, t: State) {
    Inv(f, s) && Inv(f, t) && Committed(f, s, i, t)
  }

  ghost function CommittingFrom(f: Fixed, s: State, i: nat): State -> bool {
    (t: State) => Committing(f, s, i, t)
  }

  lemma CommitBegins(f: Fixed, s: State)
    requires Inv(f, s)
    ensures CommittingFrom(f, s, 0)(s)
  {
    NewIsPooled(f, s);
    assert s.newChain[..0] == [] && s.newChain[0..] == s.newChain;
    assert [] + s.lru + [] == s.lru;
  }

  lemma CommitGoesOn(f: Fixed, s: State, i: nat, t: State)
    requires CommittingFrom(f, s, i)(t) && t.newChain != []
    ensures CanCommit(f, t) && CommittingFrom(f, s, i + 1)(CommitOne(f, t))
  {
    CommitReady(f, t);
    CommitNext(f, s, i, t);
  }

  lemma CommitEnds(f: Fixed, s: State, i: nat, t: State)
    requires CommittingFrom(f, s, i)(t) && t.newChain == []
    ensures InvOf(f)(t) && Committed(f, s, |s.newChain|, t)
  {}

  /** The first new record can be hashed. */
  predicate CanCommit(f: Fixed, s: State) {
    && TableOk(f, s) && s.newChain != [] && s.newChain[0] in s.recs
    && var chain := s.table[Bucket(f.mix, |s.table|, s.recs[s.newChain[0]].name)];
       (forall x | x in chain :: x in s.recs) && Ordered(s.recs, chain)
  }

  // ----- taking a record -----

  /** SMALLDNAME - 1: a longer name needs a buffer of its own. */
  const SMALL_NAME := 39

  /** Of the two stores of long-name buffers, the free list is used first. */
  function TakeBuffer(s: State): State
    requires s.bigFree > 0 || s.bigLeft > 0
  {
    if s.bigFree > 0 then s.(bigFree := s.bigFree - 1) else s.(bigLeft := s.bigLeft - 1)
  }

  /** The flags that inserts are given: forward or reverse, with an address family or the mark of a forward CNAME. */
  predicate Insertable(flags: set<Flag>) {
    && (Forward in flags || Reverse in flags) && Hosts !in flags && Dhcp !in flags && BigName !in flags
    && (IPv4 in flags || IPv6 in flags || (Forward in flags && Cname in flags))
  }

  /** The record at the tail of the LRU list is free, and there is a buffer if the name is long. */
  predicate CanTake(s: State, name: string) {
    && s.lru != [] && s.lru[|s.lru| - 1] in s.recs && !InUse(s.recs[s.lru[|s.lru| - 1]])
    && (|name| > SMALL_NAME ==> s.bigFree > 0 || s.bigLeft > 0)
  }

  function Taken(s: State, flags: set<Flag>, name: string, addr: Option<seq<int>>, ttd: int): State
    requires CanTake(s, name)
  {
    var r := Filled(s.recs[s.lru[|s.lru| - 1]], flags, name, addr, ttd, |name| > SMALL_NAME);
    Grab(if |name| > SMALL_NAME then TakeBuffer(s) else s, r)
  }

  lemma TakenOk(f: Fixed, s: State, t: State, flags: set<Flag>, name: string, addr: Option<seq<int>>, ttd: int)
    requires InvOf(f)(s) && Insertable(flags) && CanTake(s, name) && t == Taken(s, flags, name, addr, ttd)
    ensures InvOf(f)(t)
  {
    var r := Filled(s.recs[s.lru[|s.lru| - 1]], flags, name, addr, ttd, |name| > SMALL_NAME);
    GrabOk(f, if |name| > SMALL_NAME then TakeBuffer(s) else s, r);
  }

  /** The new records are those of s and, before them, one with the given contents. */
  predicate Added(s: State, t: State, id: Id, flags: set<Flag>, name: string, addr: Option<seq<int>>, ttd: int) {
    && t.newChain == [id] + s.newChain && id !in s.newChain && id in t.recs
    && t.recs[id].flags == flags - {Config} + (if |name| > SMALL_NAME then {BigName} else {})
    && t.recs[id].name == name && t.recs[id].ttd == ttd && t.recs[id].target == None
    && (addr.Some? ==> t.recs[id].addr == addr.value)
    && forall x | x in s.newChain :: x in s.recs && x in t.recs && t.recs[x] == s.recs[x]
  }

  lemma TakenAdds(f: Fixed, s: State, t: State, flags: set<Flag>, name: string, addr: Option<seq<int>>, ttd: int)
    requires PoolOk(f, t) && NewKept(s, t) && CanTake(t, name)
    ensures Added(s, Taken(t, flags, name, addr, ttd), t.lru[|t.lru| - 1], flags, name, addr, ttd)
  {
    var id := t.lru[|t.lru| - 1];
    assert id in Elems(t.lru);
    assert id in t.newChain ==> id in Elems(t.newChain);
  }

  /** The outcome of an insert: one record more in the new chain, or the same new chain. */
  ghost predicate Inserted(f: Fixed, s: State, t: State, id: Option<Id>, flags: set<Flag>, name: string, addr: Option<seq<int>>, ttd: int) {
    Inv(f, t) && if id.Some? then Added(s, t, id.value, flags, name, addr, ttd) else NewKept(s, t)
  }

  // ----- resizing the hash table -----

  predicate Somewhere(table: seq<seq<Id>>, id: Id) {
    exists c | 0 <= c < |table| :: id in table[c]
  }

  /** The records in done, and no others, have been hashed into a new table. */
  ghost predicate Rehashing(f: Fixed, s: State, t: State, done: set<Id>) {
    && t == s.(table := t.table) && TableOk(f, t)
    && (forall c, id | 0 <= c < |t.table| && id in t.table[c] :: id in done)
    && (forall id | id in done :: id in s.recs && Hashed(f, t, id))
  }

  lemma RehashBegins(f: Fixed, s: State, t: State)
    requires t == s.(table := t.table) && |t.table| > 0 && forall c | 0 <= c < |t.table| :: t.table[c] == []
    ensures Rehashing(f, s, t, {})
  {
    forall c | 0 <= c < |t.table| ensures ChainOk(f, t.recs, |t.table|, t.table[c], c) {}
  }

  lemma RehashStep(f: Fixed, s: State, t: State, done: set<Id>, id: Id)
    requires Rehashing(f, s, t, done) && id in s.recs && InUse(s.recs[id]) && id !in done
    ensures |t.table| > 0 && id in t.recs
    ensures var chain := t.table[Bucket(f.mix, |t.table|, t.recs[id].name)];
            (forall x | x in chain :: x in t.recs) && Ordered(t.recs, chain)
    ensures Rehashing(f, s, t.(table := HashIn(f.mix, t.recs, t.table, id)), done + {id})
  {
    var b := Bucket(f.mix, |t.table|, t.recs[id].name);
    assert ChainOk(f, t.recs, |t.table|, t.table[b], b);
    HashInOk(f, t, id);
    var u := t.(table := HashIn(f.mix, t.recs, t.table, id));
    forall x | x in done + {id} ensures x in s.recs && Hashed(f, u, x) {
      assert x != id ==> Hashed(f, t, x);
    }
  }

  function ElemsOf(table: seq<seq<Id>>, b: nat): set<Id>
    requires b <= |table|
  {
    set c, id | 0 <= c < b && id in table[c] :: id
  }

  /** The records of the next chain are in use and have not been hashed yet. */
  lemma NextChain(f: Fixed, s: State, b: nat)
    requires Inv(f, s) && b < |s.table|
    ensures NoDup(s.table[b]) && ElemsOf(s.table, b + 1) == ElemsOf(s.table, b) + Elems(s.table[b])
    ensures forall id | id in s.table[b] :: id in s.recs && InUse(s.recs[id]) && id !in ElemsOf(s.table, b)
  {
    assert ChainOk(f, s.recs, |s.table|, s.table[b], b);
    forall id | id in s.table[b] ensures id in s.recs && InUse(s.recs[id]) && id !in ElemsOf(s.table, b) {
      forall c | 0 <= c < b ensures id !in s.table[c] {
        assert ChainOk(f, s.recs, |s.table|, s.table[c], c);
      }
    }
  }

  function Power2(n: nat): nat {
    if n == 0 then 1 else 2 * Power2(n - 1)
  }

  /** The cache before its first use. */
  lemma EmptyOk(f: Fixed, s: State, n: nat)
    requires f.pool == s.recs.Keys && s.newChain == [] && s.uid == n && f.bigTotal == s.bigFree + s.bigLeft
    requires |s.table| > 0 && forall c | 0 <= c < |s.table| :: s.table[c] == []
    requires |s.lru| == n && forall i | 0 <= i < n :: s.lru[i] == n - 1 - i
    requires forall i: nat :: i in s.recs <==> i < n
    requires forall i | i in s.recs :: s.recs[i].flags == {} && s.recs[i].uid == i
    ensures Inv(f, s)
  {
    forall c | 0 <= c < |s.table| ensures ChainOk(f, s.recs, |s.table|, s.table[c], c) {}
    forall i: nat ensures i in Elems(s.lru) <==> i in f.pool {
      if i < n {
        assert s.lru[n - 1 - i] == i;
      }
    }
    assert BigHolders(f, s.recs) == {};
  }

  /** A table that holds the same records, each in its chain, serves as well. */
  lemma RehashedOk(f: Fixed, s: State, t: State)
    requires Inv(f, s) && Rehashing(f, s, t, ElemsOf(s.table, |s.table|))
    ensures Inv(f, t) && forall id :: Somewhere(t.table, id) <==> Somewhere(s.table, id)
  {
    forall id | id in t.lru && InUse(t.recs[id]) ensures Hashed(f, t, id) {
      assert Hashed(f, s, id);
      assert id in ElemsOf(s.table, |s.table|);
    }
    forall c, id | 0 <= c < |t.table| && id in t.table[c] && id in t.recs
      ensures if id in f.pool then id in t.lru else Local(t.recs[id])
    {
      assert id in ElemsOf(s.table, |s.table|);
    }
    forall id ensures Somewhere(t.table, id) <==> Somewhere(s.table, id) {
      assert Somewhere(s.table, id) <==> id in ElemsOf(s.table, |s.table|);
      if id in ElemsOf(s.table, |s.table|) {
        assert Hashed(f, t, id);
      }
      if Somewhere(t.table, id) {
        var c :| 0 <= c < |t.table| && id in t.table[c];
      }
    }
  }
}
