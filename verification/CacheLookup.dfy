/**
  What a lookup by name must give, stated without its list surgery: which records of the chain
  are dead when the scan reaches them, which live ones are wanted, and in what order the
  chain, the LRU list and the records are left.
 */
module CacheLookup {
  import opened Options
  import opened Lists
  import opened CacheState

  predicate AllIn(recs: map<Id, Rec>, ids: seq<Id>) {
    forall id | id in ids :: id in recs
  }

  /** Dead when the scan reaches it: expired, or a CNAME whose target is gone, perhaps freed by this very scan. */
  predicate Dead(recs: map<Id, Rec>, now: int, freed: seq<Id>, id: Id)
    requires id in recs
  {
    var r := recs[id];
    Expired(r, now) || Outdated(recs, r) || (Cname in r.flags && r.target.Some? && r.target.value in freed)
  }

  /** The pooled records that scanning the chain frees, in order. */
  function FreedBy(recs: map<Id, Rec>, now: int, chain: seq<Id>): (freed: seq<Id>)
    requires AllIn(recs, chain)
    ensures forall id | id in freed :: id in chain && !Local(recs[id])
  {
    if chain == [] then []
    else
      var freed := FreedBy(recs, now, chain[..|chain| - 1]);
      var id := chain[|chain| - 1];
      if !Local(recs[id]) && Dead(recs, now, freed, id) then freed + [id] else freed
  }

  /** The records that survive the scan, in order. */
  function Live(recs: map<Id, Rec>, now: int, chain: seq<Id>): (live: seq<Id>)
    requires AllIn(recs, chain)
    ensures forall id | id in live :: id in chain
  {
    if chain == [] then []
    else
      var live := Live(recs, now, chain[..|chain| - 1]);
      var id := chain[|chain| - 1];
      if Dead(recs, now, FreedBy(recs, now, chain[..|chain| - 1]), id) then live else live + [id]
  }

  /** A forward record of a requested type with an equal name. */
  predicate Wanted(r: Rec, prot: set<Flag>, name: string) {
    Forward in r.flags && r.flags * prot != {} && SameName(r.name, name)
  }

  /** The wanted records among ids that are local, or those that are not, in order. */
  function Hits(recs: map<Id, Rec>, prot: set<Flag>, name: string, ids: seq<Id>, local: bool): (hits: seq<Id>)
    requires AllIn(recs, ids)
    ensures forall id | id in hits :: id in ids && Wanted(recs[id], prot, name) && Local(recs[id]) == local
    ensures forall id | id in ids && Wanted(recs[id], prot, name) && Local(recs[id]) == local :: id in hits
  {
    if ids == [] then []
    else
      var hits := Hits(recs, prot, name, ids[..|ids| - 1], local);
      var id := ids[|ids| - 1];
      if Wanted(recs[id], prot, name) && Local(recs[id]) == local then hits + [id] else hits
  }

  // ----- how the chain is left -----

  /** The first wanted record, those before it, the later wanted ones of its kind, and the rest. */
  datatype Rotation = Rotation(front: seq<Id>, moved: seq<Id>, first: Option<Id>, rest: seq<Id>) {
    /** Round robin: the later wanted records come before the first one. */
    function Chain(): seq<Id> {
      front + moved + (if first.Some? then [first.value] else []) + rest
    }

    function InsertPoint(): nat {
      |front| + |moved|
    }
  }

  /** The flags that must agree for a record to change places with another. */
  function Kind(r: Rec): set<Flag> {
    r.flags * {Reverse, Immortal}
  }

  function Rotated(recs: map<Id, Rec>, prot: set<Flag>, name: string, live: seq<Id>): (r: Rotation)
    requires AllIn(recs, live)
    ensures r.first.Some? ==> r.first.value in recs && r.first.value in live
    ensures r.first.None? ==> r.moved == [] && r.rest == []
  {
    if live == [] then Rotation([], [], None, [])
    else
      var r := Rotated(recs, prot, name, live[..|live| - 1]);
      var id := live[|live| - 1];
      if !Wanted(recs[id], prot, name) then
        if r.first.None? then r.(front := r.front + [id]) else r.(rest := r.rest + [id])
      else if r.first.None? then r.(first := Some(id))
      else if Kind(recs[id]) == Kind(recs[r.first.value]) then r.(moved := r.moved + [id])
      else r.(rest := r.rest + [id])
  }

  // ----- how the records are left -----

  /** Freeing several records one after the other, each with the next serial number. */
  function Refreed(recs: map<Id, Rec>, ids: seq<Id>, uid: int): (r: map<Id, Rec>)
    requires AllIn(recs, ids)
    ensures r.Keys == recs.Keys
  {
    if ids == [] then recs
    else
      var id := ids[|ids| - 1];
      Refreed(recs, ids[..|ids| - 1], uid)[id := FreedRec(recs[id], uid + |ids| - 1)]
  }

  lemma {:induction false} RefreedAt(recs: map<Id, Rec>, ids: seq<Id>, uid: int, id: Id)
    requires AllIn(recs, ids) && id in recs
    ensures id !in ids ==> Refreed(recs, ids, uid)[id] == recs[id]
    ensures id in ids ==> var r := Refreed(recs, ids, uid)[id]; r == FreedRec(recs[id], r.uid) && r.uid >= uid
  {
    if ids != [] {
      RefreedAt(recs, ids[..|ids| - 1], uid, id);
    }
  }

  /** A freed record has left the survivors. */
  lemma {:induction false} FreedNotLive(recs: map<Id, Rec>, now: int, chain: seq<Id>)
    requires AllIn(recs, chain) && NoDup(chain)
    ensures forall id | id in Live(recs, now, chain) :: id !in FreedBy(recs, now, chain)
    ensures forall id | id in chain && !Local(recs[id]) :: id in Live(recs, now, chain) || id in FreedBy(recs, now, chain)
  {
    if chain != [] {
      FreedNotLive(recs, now, chain[..|chain| - 1]);
    }
  }

  /** The last record of live is the one that gets moved up. */
  predicate MovesUp(recs: map<Id, Rec>, prot: set<Flag>, name: string, before: seq<Id>, id: Id)
    requires AllIn(recs, before) && id in recs
  {
    var r := Rotated(recs, prot, name, before);
    Wanted(recs[id], prot, name) && r.first.Some? && Kind(recs[id]) == Kind(recs[r.first.value])
  }

  lemma ChainRest(r: Rotation, id: Id)
    ensures r.(rest := r.rest + [id]).Chain() == r.Chain() + [id]
  {
    var p := r.front + r.moved + (if r.first.Some? then [r.first.value] else []);
    assert p + (r.rest + [id]) == p + r.rest + [id];
  }

  lemma ChainMoved(r: Rotation, id: Id)
    ensures r.InsertPoint() <= |r.Chain()|
    ensures r.(moved := r.moved + [id]).Chain() == InsertAt(r.Chain(), r.InsertPoint(), id)
  {
    var p := r.front + r.moved;
    var one := if r.first.Some? then [r.first.value] else [];
    assert r.Chain()[..|p|] == p && r.Chain()[|p|..] == one + r.rest;
    assert r.front + (r.moved + [id]) == p + [id];
    assert p + [id] + one + r.rest == p + [id] + (one + r.rest);
  }

  lemma ChainFront(r: Rotation, id: Id)
    requires r.first.None? && r.moved == [] && r.rest == []
    ensures r.(front := r.front + [id]).Chain() == r.Chain() + [id]
    ensures r.(first := Some(id)).Chain() == r.Chain() + [id]
  {}

  /** One more live record is appended to the rotated chain, or put in at the insert point. */
  lemma RotatedStep(recs: map<Id, Rec>, prot: set<Flag>, name: string, before: seq<Id>, id: Id)
    requires AllIn(recs, before) && id in recs
    ensures AllIn(recs, before + [id])
    ensures var r0, r := Rotated(recs, prot, name, before), Rotated(recs, prot, name, before + [id]);
            && r0.InsertPoint() <= |r0.Chain()|
            && r.Chain() == if MovesUp(recs, prot, name, before, id)
                            then InsertAt(r0.Chain(), r0.InsertPoint(), id) else r0.Chain() + [id]
  {
    var live := before + [id];
    assert live[..|live| - 1] == before;
    var r0 := Rotated(recs, prot, name, before);
    ChainMoved(r0, id);
    if r0.first.None? {
      ChainFront(r0, id);
    } else {
      ChainRest(r0, id);
    }
  }

  lemma InsertAtMultiset(q: seq<Id>, k: nat, x: Id)
    requires k <= |q|
    ensures multiset(InsertAt(q, k, x)) == multiset(q) + multiset{x}
  {
    assert q == q[..k] + q[k..];
  }

  lemma StepElems(c0: seq<Id>, k: nat, before: seq<Id>, id: Id)
    requires k <= |c0| && multiset(c0) == multiset(before)
    ensures multiset(InsertAt(c0, k, id)) == multiset(before + [id])
    ensures multiset(c0 + [id]) == multiset(before + [id])
  {
    InsertAtMultiset(c0, k, id);
  }

  /** The rotated chain has the same records. */
  lemma {:induction false} RotatedElems(recs: map<Id, Rec>, prot: set<Flag>, name: string, live: seq<Id>)
    requires AllIn(recs, live)
    ensures multiset(Rotated(recs, prot, name, live).Chain()) == multiset(live)
  {
    if live == [] {
      assert Rotated(recs, prot, name, live).Chain() == [];
    } else {
      var before, id := live[..|live| - 1], live[|live| - 1];
      assert live == before + [id];
      RotatedElems(recs, prot, name, before);
      RotatedStep(recs, prot, name, before, id);
      var r0 := Rotated(recs, prot, name, before);
      StepElems(r0.Chain(), r0.InsertPoint(), before, id);
    }
  }

  /** Whether a CNAME is outdated during the scan, in terms of the records before it. */
  lemma OutdatedDuringScan(recs: map<Id, Rec>, freed: seq<Id>, uid: int, id: Id)
    requires AllIn(recs, freed) && id in recs && id !in freed
    requires Cname in recs[id].flags && recs[id].target.Some? && recs[id].target.value in freed ==> recs[id].targetUid < uid
    ensures var r := Refreed(recs, freed, uid);
            r[id] == recs[id]
            && (Outdated(r, r[id])
                <==> Outdated(recs, recs[id])
                     || (Cname in recs[id].flags && recs[id].target.Some? && recs[id].target.value in freed))
  {
    RefreedAt(recs, freed, uid, id);
    if recs[id].target.Some? && recs[id].target.value in recs {
      RefreedAt(recs, freed, uid, recs[id].target.value);
    }
  }

  // ----- the state after scanning part of a chain -----

  function CountBig(recs: map<Id, Rec>, ids: seq<Id>): nat
    requires AllIn(recs, ids)
  {
    if ids == [] then 0
    else CountBig(recs, ids[..|ids| - 1]) + (if BigName in recs[ids[|ids| - 1]].flags then 1 else 0)
  }

  /** The LRU list: new hits at the head, last hit first; freed records at the tail. */
  function LruAfter(lru: seq<Id>, hits: seq<Id>, freed: seq<Id>): seq<Id> {
    Backwards(hits) + Minus(lru, Elems(hits) + Elems(freed)) + freed
  }

  /** What is looked for, and when. */
  datatype Query = Query(name: string, now: int, prot: set<Flag>)

  function LiveHits(recs: map<Id, Rec>, q: Query, chain: seq<Id>, local: bool): (hits: seq<Id>)
    requires AllIn(recs, chain)
    ensures forall id | id in hits :: id in chain && Wanted(recs[id], q.prot, q.name) && Local(recs[id]) == local
  {
    Hits(recs, q.prot, q.name, Live(recs, q.now, chain), local)
  }

  function KeptChain(recs: map<Id, Rec>, q: Query, chain: seq<Id>): Rotation
    requires AllIn(recs, chain)
  {
    Rotated(recs, q.prot, q.name, Live(recs, q.now, chain))
  }

  /** What a scan has done so far: the records freed, the chain kept, the pooled records hit. */
  datatype Progress = Progress(freed: seq<Id>, kept: seq<Id>, hits: seq<Id>)

  /** The state reached from s when chain b has been scanned but for the rest. */
  function Partway(s: State, b: nat, p: Progress, rest: seq<Id>): State
    requires b < |s.table| && AllIn(s.recs, p.freed)
  {
    s.(recs := Refreed(s.recs, p.freed, s.uid), table := s.table[b := p.kept + rest],
       lru := LruAfter(s.lru, p.hits, p.freed), bigFree := s.bigFree + CountBig(s.recs, p.freed),
       uid := s.uid + |p.freed|)
  }

  function ProgressOf(recs: map<Id, Rec>, q: Query, seen: seq<Id>): (p: Progress)
    requires AllIn(recs, seen)
    ensures AllIn(recs, p.freed)
  {
    Progress(FreedBy(recs, q.now, seen), KeptChain(recs, q, seen).Chain(), LiveHits(recs, q, seen, false))
  }

  /** The state when the first i records of chain b have been scanned. */
  function Scanned(s: State, q: Query, b: nat, i: nat): State
    requires b < |s.table| && i <= |s.table[b]| && AllIn(s.recs, s.table[b])
  {
    Partway(s, b, ProgressOf(s.recs, q, s.table[b][..i]), s.table[b][i..])
  }

  lemma RemoveFromLru(lru: seq<Id>, hits: seq<Id>, freed: seq<Id>, id: Id)
    requires NoDup(LruAfter(lru, hits, freed)) && id in lru && id !in hits && id !in freed
    ensures id in LruAfter(lru, hits, freed)
    ensures var q := LruAfter(lru, hits, freed);
            RemoveAt(q, IndexOf(q, id)) == Backwards(hits) + Minus(lru, Elems(hits) + Elems(freed) + {id}) + freed
  {
    var m := Minus(lru, Elems(hits) + Elems(freed));
    var q := LruAfter(lru, hits, freed);
    assert id in m;
    MinusOne(q, IndexOf(q, id));
    MinusAppend(Backwards(hits) + m, freed, {id});
    MinusAppend(Backwards(hits), m, {id});
    MinusNothing(Backwards(hits), {id});
    MinusNothing(freed, {id});
    MinusMinus(lru, Elems(hits) + Elems(freed), {id});
  }

  lemma PrependToThree(x: seq<Id>, a: seq<Id>, b: seq<Id>, c: seq<Id>)
    ensures x + (a + b + c) == x + a + b + c
    ensures a + b + c + x == a + b + (c + x)
  {}

  lemma ElemsAppend(p: seq<Id>, id: Id)
    ensures Elems(p + [id]) == Elems(p) + {id}
  {}

  lemma BackwardsAppend(p: seq<Id>, id: Id)
    ensures Backwards(p + [id]) == [id] + Backwards(p)
  {
    assert (p + [id])[..|p|] == p;
  }

  lemma LruRelease(lru: seq<Id>, hits: seq<Id>, freed: seq<Id>, id: Id)
    requires NoDup(LruAfter(lru, hits, freed)) && id in lru && id !in hits && id !in freed
    ensures id in LruAfter(lru, hits, freed)
    ensures var q := LruAfter(lru, hits, freed);
            RemoveAt(q, IndexOf(q, id)) + [id] == LruAfter(lru, hits, freed + [id])
  {
    RemoveFromLru(lru, hits, freed, id);
    ElemsAppend(freed, id);
    var gone := Elems(hits) + Elems(freed) + {id};
    assert Elems(hits) + Elems(freed + [id]) == gone;
    PrependToThree([id], Backwards(hits), Minus(lru, gone), freed);
  }

  lemma LruPromote(lru: seq<Id>, hits: seq<Id>, freed: seq<Id>, id: Id)
    requires NoDup(LruAfter(lru, hits, freed)) && id in lru && id !in hits && id !in freed
    ensures id in LruAfter(lru, hits, freed)
    ensures var q := LruAfter(lru, hits, freed);
            [id] + RemoveAt(q, IndexOf(q, id)) == LruAfter(lru, hits + [id], freed)
  {
    RemoveFromLru(lru, hits, freed, id);
    ElemsAppend(hits, id);
    var gone := Elems(hits) + Elems(freed) + {id};
    assert Elems(hits + [id]) + Elems(freed) == gone;
    BackwardsAppend(hits, id);
    PrependToThree([id], Backwards(hits), Minus(lru, gone), freed);
  }

  // ----- one step of the scan -----

  lemma SeenStep(chain: seq<Id>, i: nat)
    requires i < |chain|
    ensures chain[..i + 1] == chain[..i] + [chain[i]] && chain[..i + 1][..i] == chain[..i]
    ensures chain[i..] == [chain[i]] + chain[i + 1..]
  {}

  /** How the lists grow when record i of the chain is looked at. */
  lemma ListsStep(recs: map<Id, Rec>, q: Query, chain: seq<Id>, i: nat)
    requires AllIn(recs, chain) && i < |chain|
    ensures var seen, next, id := chain[..i], chain[..i + 1], chain[i];
            var dead := Dead(recs, q.now, FreedBy(recs, q.now, seen), id);
            var wanted := Wanted(recs[id], q.prot, q.name);
            && FreedBy(recs, q.now, next)
               == (if dead && !Local(recs[id]) then FreedBy(recs, q.now, seen) + [id] else FreedBy(recs, q.now, seen))
            && Live(recs, q.now, next) == (if dead then Live(recs, q.now, seen) else Live(recs, q.now, seen) + [id])
            && forall local: bool ::
                 LiveHits(recs, q, next, local)
                 == if !dead && wanted && Local(recs[id]) == local
                    then LiveHits(recs, q, seen, local) + [id] else LiveHits(recs, q, seen, local)
  {
    SeenStep(chain, i);
    var live, id := Live(recs, q.now, chain[..i]), chain[i];
    assert (live + [id])[..|live|] == live;
  }

  /** Record i is not among those already freed or already hit. */
  lemma NotSeen(recs: map<Id, Rec>, q: Query, chain: seq<Id>, i: nat)
    requires AllIn(recs, chain) && NoDup(chain) && i < |chain|
    ensures chain[i] !in FreedBy(recs, q.now, chain[..i]) && chain[i] !in LiveHits(recs, q, chain[..i], false)
  {
    assert chain[i] !in chain[..i];
  }

  lemma RemoveAtJoint(p: seq<Id>, id: Id, rest: seq<Id>)
    ensures RemoveAt(p + ([id] + rest), |p|) == p + rest
  {}

  lemma RefreedStep(recs: map<Id, Rec>, freed: seq<Id>, uid: int, id: Id)
    requires AllIn(recs, freed) && id in recs && id !in freed
    ensures AllIn(recs, freed + [id])
    ensures Refreed(recs, freed + [id], uid)
            == Refreed(recs, freed, uid)[id := FreedRec(Refreed(recs, freed, uid)[id], uid + |freed|)]
    ensures CountBig(recs, freed + [id]) == CountBig(recs, freed) + (if BigName in recs[id].flags then 1 else 0)
    ensures Refreed(recs, freed, uid)[id] == recs[id]
  {
    var next := freed + [id];
    assert next[..|next| - 1] == freed;
    RefreedAt(recs, freed, uid, id);
  }

  // Steps from a partway state.

  lemma PartwayDrop(s: State, b: nat, p: Progress, id: Id, rest: seq<Id>)
    requires b < |s.table| && AllIn(s.recs, p.freed) && id in s.recs && id !in p.freed && id !in p.hits
    requires !Local(s.recs[id]) ==> id in s.lru && NoDup(LruAfter(s.lru, p.hits, p.freed))
    ensures var t := Partway(s, b, p, [id] + rest);
            && |p.kept| < |t.table[b]| && t.table[b][|p.kept|] == id && id in t.recs && t.recs[id] == s.recs[id]
            && (Local(s.recs[id]) || id in t.lru) && AllIn(s.recs, p.freed + [id])
            && Drop(t, b, |p.kept|)
               == Partway(s, b, if Local(s.recs[id]) then p else p.(freed := p.freed + [id]), rest)
  {
    RefreedStep(s.recs, p.freed, s.uid, id);
    RemoveAtJoint(p.kept, id, rest);
    if !Local(s.recs[id]) {
      LruRelease(s.lru, p.hits, p.freed, id);
    }
  }

  lemma PartwayKeep(s: State, b: nat, p: Progress, id: Id, rest: seq<Id>)
    requires b < |s.table| && AllIn(s.recs, p.freed)
    ensures Partway(s, b, p, [id] + rest) == Partway(s, b, p.(kept := p.kept + [id]), rest)
  {
    AdvanceJoint(p.kept, 0, id, rest);
  }

  lemma PartwayPromote(s: State, b: nat, p: Progress, id: Id, rest: seq<Id>)
    requires b < |s.table| && AllIn(s.recs, p.freed) && id in s.recs && id !in p.freed && id !in p.hits
    requires id in s.lru && NoDup(LruAfter(s.lru, p.hits, p.freed))
    ensures var t := Partway(s, b, p, rest);
            && id in t.lru && id in t.recs && t.recs[id] == s.recs[id]
            && Promote(t, id) == Partway(s, b, p.(hits := p.hits + [id]), rest)
  {
    RefreedStep(s.recs, p.freed, s.uid, id);
    LruPromote(s.lru, p.hits, p.freed, id);
  }

  lemma PartwayAdvance(s: State, b: nat, p: Progress, k: nat, id: Id, rest: seq<Id>)
    requires b < |s.table| && AllIn(s.recs, p.freed) && k <= |p.kept|
    ensures var t := Partway(s, b, p, [id] + rest);
            && |p.kept| < |t.table[b]| && t.table[b][|p.kept|] == id
            && Advance(t, b, k, |p.kept|) == Partway(s, b, p.(kept := InsertAt(p.kept, k, id)), rest)
  {
    AdvanceJoint(p.kept, k, id, rest);
  }

  lemma AdvanceJoint(c: seq<Id>, k: nat, id: Id, rest: seq<Id>)
    requires k <= |c|
    ensures InsertAt(RemoveAt(c + ([id] + rest), |c|), k, id) == InsertAt(c, k, id) + rest
    ensures c + ([id] + rest) == c + [id] + rest
  {
    RemoveAtJoint(c, id, rest);
    assert (c + rest)[..k] == c[..k] && (c + rest)[k..] == c[k..] + rest;
  }

  /** How the progress changes when record i of the chain is looked at. */
  lemma ProgressStep(recs: map<Id, Rec>, q: Query, chain: seq<Id>, i: nat)
    requires AllIn(recs, chain) && NoDup(chain) && i < |chain|
    ensures var id := chain[i];
            var p, p' := ProgressOf(recs, q, chain[..i]), ProgressOf(recs, q, chain[..i + 1]);
            var kept := KeptChain(recs, q, chain[..i]);
            && id !in p.freed && id !in p.hits && kept.InsertPoint() <= |p.kept|
            && p' == (if Dead(recs, q.now, p.freed, id) then
                        if Local(recs[id]) then p else p.(freed := p.freed + [id])
                      else if !Wanted(recs[id], q.prot, q.name) then p.(kept := p.kept + [id])
                      else
                        var h := if Local(recs[id]) then p else p.(hits := p.hits + [id]);
                        if MovesUp(recs, q.prot, q.name, Live(recs, q.now, chain[..i]), id)
                        then h.(kept := InsertAt(p.kept, kept.InsertPoint(), id)) else h.(kept := p.kept + [id]))
  {
    ListsStep(recs, q, chain, i);
    NotSeen(recs, q, chain, i);
    RotatedStep(recs, q.prot, q.name, Live(recs, q.now, chain[..i]), chain[i]);
  }

  // ----- the loop of cache_find_by_name -----

  /** Its local variables: scan position, insert position and its flags, local records found. */
  datatype Vars = Vars(up: nat, insert: Option<nat>, insFlags: set<Flag>, localHits: seq<Id>)

  /** The variables when the first i records of the chain have been scanned. */
  function VarsAt(recs: map<Id, Rec>, q: Query, seen: seq<Id>): Vars
    requires AllIn(recs, seen)
  {
    VarsFrom(recs, KeptChain(recs, q, seen), LiveHits(recs, q, seen, true))
  }

  function VarsFrom(recs: map<Id, Rec>, kept: Rotation, locals: seq<Id>): Vars
    requires kept.first.Some? ==> kept.first.value in recs
  {
    Vars(|kept.Chain()|, if kept.first.None? then None else Some(kept.InsertPoint()),
         if kept.first.None? then {} else Kind(recs[kept.first.value]), locals)
  }

  predicate CanStep(s: State, b: nat, v: Vars) {
    && b < |s.table| && v.up < |s.table[b]| && s.table[b][v.up] in s.recs
    && (Local(s.recs[s.table[b][v.up]]) || s.table[b][v.up] in s.lru)
    && (v.insert.Some? ==> v.insert.value <= v.up)
  }

  /** One pass through the body of the loop: the state and the variables. */
  function StepState(s: State, q: Query, b: nat, v: Vars): State
    requires CanStep(s, b, v)
  {
    var id := s.table[b][v.up];
    var r := s.recs[id];
    if Expired(r, q.now) || Outdated(s.recs, r) then Drop(s, b, v.up)
    else if !Wanted(r, q.prot, q.name) then s
    else
      var t := if Local(r) then s else Promote(s, id);
      if v.insert.Some? && Kind(r) == v.insFlags then Advance(t, b, v.insert.value, v.up) else t
  }

  function StepVars(r: Rec, id: Id, dead: bool, q: Query, v: Vars): Vars {
    if dead then v
    else if !Wanted(r, q.prot, q.name) then v.(up := v.up + 1)
    else
      var w := v.(up := v.up + 1, localHits := if Local(r) then v.localHits + [id] else v.localHits);
      if v.insert.None? then w.(insert := Some(v.up), insFlags := Kind(r))
      else if Kind(r) == v.insFlags then w.(insert := Some(v.insert.value + 1)) else w
  }

  /** Mid-scan, the record at the scan position is record i of the chain, unchanged. */
  lemma MidScan(f: Fixed, s: State, q: Query, b: nat, i: nat)
    requires Inv(f, s) && b < |s.table| && i < |s.table[b]| && AllIn(s.recs, s.table[b])
    requires Inv(f, Scanned(s, q, b, i))
    ensures var t, v, id := Scanned(s, q, b, i), VarsAt(s.recs, q, s.table[b][..i]), s.table[b][i];
            && CanStep(t, b, v) && t.table[b][v.up] == id && t.recs[id] == s.recs[id]
            && (Expired(t.recs[id], q.now) || Outdated(t.recs, t.recs[id])
                <==> Dead(s.recs, q.now, FreedBy(s.recs, q.now, s.table[b][..i]), id))
  {
    var chain, id := s.table[b], s.table[b][i];
    var p := ProgressOf(s.recs, q, chain[..i]);
    assert ChainOk(f, s.recs, |s.table|, chain, b);
    SeenStep(chain, i);
    ProgressStep(s.recs, q, chain, i);
    InsertVars(s.recs, q, chain, i);
    assert id in chain;
    assert forall x | x in p.freed :: x in chain && x in f.pool;
    OutdatedDuringScan(s.recs, p.freed, s.uid, id);
    PartwayDrop(s, b, p, id, chain[i + 1..]);
  }

  /** How the rotation changes with one more live record. */
  lemma RotatedUnfold(recs: map<Id, Rec>, prot: set<Flag>, name: string, before: seq<Id>, id: Id)
    requires AllIn(recs, before) && id in recs
    ensures AllIn(recs, before + [id])
    ensures var r0, r := Rotated(recs, prot, name, before), Rotated(recs, prot, name, before + [id]);
            && |r.Chain()| == |r0.Chain()| + 1
            && (!Wanted(recs[id], prot, name) ==> r.first == r0.first && (r.first.Some? ==> r.InsertPoint() == r0.InsertPoint()))
            && (Wanted(recs[id], prot, name) && r0.first.None? ==> r.first == Some(id) && r.InsertPoint() == |r0.Chain()|)
            && (Wanted(recs[id], prot, name) && r0.first.Some? ==>
                  && r.first == r0.first
                  && r.InsertPoint() == r0.InsertPoint() + if Kind(recs[id]) == Kind(recs[r0.first.value]) then 1 else 0)
            && (r0.first.Some? ==> r0.InsertPoint() < |r0.Chain()| && r0.Chain()[r0.InsertPoint()] == r0.first.value)
  {
    var live := before + [id];
    assert live[..|live| - 1] == before;
    RotatedStep(recs, prot, name, before, id);
  }

  lemma VarsLive(recs: map<Id, Rec>, q: Query, before: seq<Id>, locals: seq<Id>, id: Id)
    requires AllIn(recs, before) && id in recs
    ensures AllIn(recs, before + [id])
    ensures var r0, r := Rotated(recs, q.prot, q.name, before), Rotated(recs, q.prot, q.name, before + [id]);
            var locals' := if Wanted(recs[id], q.prot, q.name) && Local(recs[id]) then locals + [id] else locals;
            VarsFrom(recs, r, locals') == StepVars(recs[id], id, false, q, VarsFrom(recs, r0, locals))
  {
    RotatedUnfold(recs, q.prot, q.name, before, id);
  }

  lemma VarsStep(recs: map<Id, Rec>, q: Query, chain: seq<Id>, i: nat)
    requires AllIn(recs, chain) && i < |chain|
    ensures var id := chain[i];
            var v, v' := VarsAt(recs, q, chain[..i]), VarsAt(recs, q, chain[..i + 1]);
            v' == StepVars(recs[id], id, Dead(recs, q.now, FreedBy(recs, q.now, chain[..i]), id), q, v)
  {
    ListsStep(recs, q, chain, i);
    VarsLive(recs, q, Live(recs, q.now, chain[..i]), LiveHits(recs, q, chain[..i], true), chain[i]);
  }

  lemma InsertVars(recs: map<Id, Rec>, q: Query, chain: seq<Id>, i: nat)
    requires AllIn(recs, chain) && i < |chain|
    ensures var id, v := chain[i], VarsAt(recs, q, chain[..i]);
            && (v.insert.Some? ==> v.insert.value < v.up)
            && (MovesUp(recs, q.prot, q.name, Live(recs, q.now, chain[..i]), id)
                <==> Wanted(recs[id], q.prot, q.name) && v.insert.Some? && Kind(recs[id]) == v.insFlags)
  {
    RotatedUnfold(recs, q.prot, q.name, Live(recs, q.now, chain[..i]), chain[i]);
  }

  lemma StepDead(f: Fixed, s: State, q: Query, b: nat, i: nat)
    requires Inv(f, s) && b < |s.table| && i < |s.table[b]| && AllIn(s.recs, s.table[b])
    requires Inv(f, Scanned(s, q, b, i))
    requires Dead(s.recs, q.now, FreedBy(s.recs, q.now, s.table[b][..i]), s.table[b][i])
    ensures var t, v := Scanned(s, q, b, i), VarsAt(s.recs, q, s.table[b][..i]);
            && CanStep(t, b, v) && Drop(t, b, v.up) == Scanned(s, q, b, i + 1) && Inv(f, Drop(t, b, v.up))
  {
    var chain, id := s.table[b], s.table[b][i];
    var p := ProgressOf(s.recs, q, chain[..i]);
    assert ChainOk(f, s.recs, |s.table|, chain, b);
    MidScan(f, s, q, b, i);
    SeenStep(chain, i);
    ProgressStep(s.recs, q, chain, i);
    assert id in chain;
    PartwayDrop(s, b, p, id, chain[i + 1..]);
    DropOk(f, Scanned(s, q, b, i), b, |p.kept|);
  }

  lemma StepUnwanted(s: State, q: Query, b: nat, i: nat)
    requires b < |s.table| && i < |s.table[b]| && AllIn(s.recs, s.table[b]) && NoDup(s.table[b])
    requires !Dead(s.recs, q.now, FreedBy(s.recs, q.now, s.table[b][..i]), s.table[b][i])
    requires !Wanted(s.recs[s.table[b][i]], q.prot, q.name)
    ensures Scanned(s, q, b, i) == Scanned(s, q, b, i + 1)
  {
    var chain, id := s.table[b], s.table[b][i];
    SeenStep(chain, i);
    ProgressStep(s.recs, q, chain, i);
    PartwayKeep(s, b, ProgressOf(s.recs, q, chain[..i]), id, chain[i + 1..]);
  }

  /** At the insert point of the chain being built stands the first wanted record, not a freed one. */
  lemma InsertClass(s: State, q: Query, b: nat, i: nat)
    requires b < |s.table| && i < |s.table[b]| && AllIn(s.recs, s.table[b]) && NoDup(s.table[b])
    requires KeptChain(s.recs, q, s.table[b][..i]).first.Some?
    ensures var kept := KeptChain(s.recs, q, s.table[b][..i]);
            var t := Scanned(s, q, b, i);
            && kept.InsertPoint() < |kept.Chain()| && kept.Chain()[kept.InsertPoint()] == kept.first.value
            && t.table[b][kept.InsertPoint()] == kept.first.value
            && kept.first.value in t.recs && t.recs[kept.first.value] == s.recs[kept.first.value]
  {
    var seen := s.table[b][..i];
    var kept := KeptChain(s.recs, q, seen);
    assert NoDup(seen);
    FreedNotLive(s.recs, q.now, seen);
    RefreedAt(s.recs, FreedBy(s.recs, q.now, seen), s.uid, kept.first.value);
  }

  /** The state after a wanted record has been linked to the head of the LRU list, if it is pooled. */
  lemma StepPromote(f: Fixed, s: State, q: Query, b: nat, i: nat)
    requires Inv(f, s) && b < |s.table| && i < |s.table[b]| && AllIn(s.recs, s.table[b])
    requires Inv(f, Scanned(s, q, b, i))
    requires !Dead(s.recs, q.now, FreedBy(s.recs, q.now, s.table[b][..i]), s.table[b][i])
    requires Wanted(s.recs[s.table[b][i]], q.prot, q.name)
    ensures var t, id := Scanned(s, q, b, i), s.table[b][i];
            var p := ProgressOf(s.recs, q, s.table[b][..i]);
            var h := if Local(s.recs[id]) then p else p.(hits := p.hits + [id]);
            && (Local(s.recs[id]) || id in t.lru)
            && var u := if Local(s.recs[id]) then t else Promote(t, id);
               u == Partway(s, b, h, [id] + s.table[b][i + 1..]) && Inv(f, u)
  {
    var chain, id := s.table[b], s.table[b][i];
    assert ChainOk(f, s.recs, |s.table|, chain, b);
    MidScan(f, s, q, b, i);
    SeenStep(chain, i);
    ProgressStep(s.recs, q, chain, i);
    if !Local(s.recs[id]) {
      PartwayPromote(s, b, ProgressOf(s.recs, q, chain[..i]), id, [id] + chain[i + 1..]);
      PromoteOk(f, Scanned(s, q, b, i), id);
    }
  }

  lemma StepWanted(f: Fixed, s: State, q: Query, b: nat, i: nat)
    requires Inv(f, s) && b < |s.table| && i < |s.table[b]| && AllIn(s.recs, s.table[b])
    requires Inv(f, Scanned(s, q, b, i))
    requires !Dead(s.recs, q.now, FreedBy(s.recs, q.now, s.table[b][..i]), s.table[b][i])
    requires Wanted(s.recs[s.table[b][i]], q.prot, q.name)
    ensures var t, v, id := Scanned(s, q, b, i), VarsAt(s.recs, q, s.table[b][..i]), s.table[b][i];
            && (Local(s.recs[id]) || id in t.lru)
            && var u := if Local(s.recs[id]) then t else Promote(t, id);
               && v.up < |u.table[b]|
               && (v.insert.Some? ==> v.insert.value <= v.up)
               && Scanned(s, q, b, i + 1) == (if v.insert.Some? && Kind(s.recs[id]) == v.insFlags
                                              then Advance(u, b, v.insert.value, v.up) else u)
               && Inv(f, Scanned(s, q, b, i + 1))
  {
    var chain, id := s.table[b], s.table[b][i];
    var t, v := Scanned(s, q, b, i), VarsAt(s.recs, q, chain[..i]);
    var p, rest := ProgressOf(s.recs, q, chain[..i]), chain[i + 1..];
    assert ChainOk(f, s.recs, |s.table|, chain, b);
    StepPromote(f, s, q, b, i);
    ProgressStep(s.recs, q, chain, i);
    InsertVars(s.recs, q, chain, i);
    var h := if Local(s.recs[id]) then p else p.(hits := p.hits + [id]);
    var u := if Local(s.recs[id]) then t else Promote(t, id);
    PartwayKeep(s, b, h, id, rest);
    PartwayAdvance(s, b, h, if v.insert.Some? then v.insert.value else 0, id, rest);
    if v.insert.Some? && Kind(s.recs[id]) == v.insFlags {
      InsertClass(s, q, b, i);
      SameKindSameClass(s.recs[KeptChain(s.recs, q, chain[..i]).first.value], s.recs[id]);
      RefreedStep(s.recs, p.freed, s.uid, id);
      AdvanceOk(f, u, b, v.insert.value, v.up);
    }
  }

  lemma SameKindSameClass(r: Rec, r': Rec)
    requires Kind(r) == Kind(r')
    ensures Class(r) == Class(r')
  {
    assert Reverse in r.flags <==> Reverse in Kind(r);
    assert Reverse in r'.flags <==> Reverse in Kind(r');
    assert Immortal in r.flags <==> Immortal in Kind(r);
    assert Immortal in r'.flags <==> Immortal in Kind(r');
  }

  /** One pass through the loop takes the scan of i records to the scan of i + 1, and keeps the invariant. */
  lemma StepOk(f: Fixed, s: State, q: Query, b: nat, i: nat, t: State, v: Vars)
    requires Inv(f, s) && b < |s.table| && i < |s.table[b]| && AllIn(s.recs, s.table[b])
    requires t == Scanned(s, q, b, i) && Inv(f, t) && v == VarsAt(s.recs, q, s.table[b][..i])
    ensures CanStep(t, b, v) && StepState(t, q, b, v) == Scanned(s, q, b, i + 1) && Inv(f, Scanned(s, q, b, i + 1))
  {
    assert ChainOk(f, s.recs, |s.table|, s.table[b], b);
    MidScan(f, s, q, b, i);
    var id := s.table[b][i];
    if Dead(s.recs, q.now, FreedBy(s.recs, q.now, s.table[b][..i]), id) {
      StepDead(f, s, q, b, i);
    } else if !Wanted(s.recs[id], q.prot, q.name) {
      StepUnwanted(s, q, b, i);
    } else {
      StepWanted(f, s, q, b, i);
    }
  }

  /** Chain b has been scanned for q up to record i, giving the state t and the variables v. */
  ghost predicate Scanning(f: Fixed, s: State, q: Query, b: nat, i: nat, t: State, v: Vars) {
    && Inv(f, s) && b < |s.table| && i <= |s.table[b]| && AllIn(s.recs, s.table[b])
    && t == Scanned(s, q, b, i) && v == VarsAt(s.recs, q, s.table[b][..i]) && Inv(f, t)
  }

  lemma ScanBegins(f: Fixed, s: State, q: Query, b: nat)
    requires Inv(f, s) && b < |s.table|
    ensures Scanning(f, s, q, b, 0, s, Vars(0, None, {}, []))
  {
    assert ChainOk(f, s.recs, |s.table|, s.table[b], b);
    ScanStart(s, q, b);
  }

  lemma ScanGoesOn(f: Fixed, s: State, q: Query, b: nat, i: nat, t: State, v: Vars)
    requires Scanning(f, s, q, b, i, t, v) && v.up < |t.table[b]|
    ensures i < |s.table[b]| && CanStep(t, b, v)
    ensures var id, r := t.table[b][v.up], t.recs[t.table[b][v.up]];
            var dead := Expired(r, q.now) || Outdated(t.recs, r);
            Scanning(f, s, q, b, i + 1, StepState(t, q, b, v), StepVars(r, id, dead, q, v))
  {
    StepOk(f, s, q, b, i, t, v);
    MidScan(f, s, q, b, i);
    VarsStep(s.recs, q, s.table[b], i);
  }

  lemma ScanEnds(f: Fixed, s: State, q: Query, b: nat, i: nat, t: State, v: Vars)
    requires Scanning(f, s, q, b, i, t, v) && v.up >= |t.table[b]|
    ensures t == Scanned(s, q, b, |s.table[b]|) && v.localHits == LiveHits(s.recs, q, s.table[b], true)
  {
    assert s.table[b][..|s.table[b]|] == s.table[b];
  }

  lemma ScanStart(s: State, q: Query, b: nat)
    requires b < |s.table| && AllIn(s.recs, s.table[b])
    ensures Scanned(s, q, b, 0) == s && VarsAt(s.recs, q, s.table[b][..0]) == Vars(0, None, {}, [])
  {
    var chain := s.table[b];
    assert chain[..0] == [] && chain[0..] == chain;
    assert ProgressOf(s.recs, q, []) == Progress([], [], []);
    PartwayStart(s, b);
  }

  lemma LruUntouched(lru: seq<Id>)
    ensures LruAfter(lru, [], []) == lru
  {
    var none: seq<Id> := [];
    assert Elems(none) + Elems(none) == {};
    MinusNothing(lru, {});
  }

  lemma PartwayStart(s: State, b: nat)
    requires b < |s.table|
    ensures Partway(s, b, Progress([], [], []), s.table[b]) == s
  {
    LruUntouched(s.lru);
    var none: seq<Id> := [];
    assert none + s.table[b] == s.table[b];
    assert s.table[b := s.table[b]] == s.table;
  }

  // ----- what the iteration sees -----

  /** The records a lookup gives, in order: local ones, then pooled ones with the last hit first. */
  function Answers(recs: map<Id, Rec>, q: Query, chain: seq<Id>): seq<Id>
    requires AllIn(recs, chain)
  {
    LiveHits(recs, q, chain, true) + Backwards(LiveHits(recs, q, chain, false))
  }

  lemma {:induction false} LiveMember(recs: map<Id, Rec>, now: int, chain: seq<Id>, i: nat)
    requires AllIn(recs, chain) && NoDup(chain) && i < |chain|
    ensures chain[i] in Live(recs, now, chain) <==> !Dead(recs, now, FreedBy(recs, now, chain[..i]), chain[i])
  {
    var n := |chain| - 1;
    var before, last := chain[..n], chain[n];
    assert chain == before + [last] && last !in before;
    var live := Live(recs, now, before);
    if i < n {
      assert before[i] == chain[i] && before[..i] == chain[..i] && chain[i] != last;
      LiveMember(recs, now, before, i);
      assert chain[i] in Live(recs, now, chain) <==> chain[i] in live;
    } else {
      assert last !in live;
    }
  }

  lemma {:induction false} LiveNoDup(recs: map<Id, Rec>, now: int, chain: seq<Id>)
    requires AllIn(recs, chain) && NoDup(chain)
    ensures NoDup(Live(recs, now, chain))
  {
    if chain != [] {
      var n := |chain| - 1;
      var live := Live(recs, now, chain[..n]);
      LiveNoDup(recs, now, chain[..n]);
      assert chain[n] !in chain[..n];
      NoDupAppend(live, chain[n]);
    }
  }

  lemma {:induction false} HitsNoDup(recs: map<Id, Rec>, prot: set<Flag>, name: string, ids: seq<Id>, local: bool)
    requires AllIn(recs, ids) && NoDup(ids)
    ensures NoDup(Hits(recs, prot, name, ids, local))
  {
    if ids != [] {
      HitsNoDup(recs, prot, name, ids[..|ids| - 1], local);
    }
  }

  /**
    A lookup gives exactly the records of the chain that are live when the scan reaches them and
    wanted, each once.
   */
  lemma AnswersAreLiveWanted(recs: map<Id, Rec>, q: Query, chain: seq<Id>)
    requires AllIn(recs, chain) && NoDup(chain)
    ensures NoDup(Answers(recs, q, chain))
    ensures forall id | id in Answers(recs, q, chain) :: id in chain
    ensures forall i | 0 <= i < |chain| ::
              chain[i] in Answers(recs, q, chain)
              <==> Wanted(recs[chain[i]], q.prot, q.name)
                   && !Dead(recs, q.now, FreedBy(recs, q.now, chain[..i]), chain[i])
  {
    LiveNoDup(recs, q.now, chain);
    var live := Live(recs, q.now, chain);
    HitsNoDup(recs, q.prot, q.name, live, true);
    HitsNoDup(recs, q.prot, q.name, live, false);
    BackwardsNoDup(LiveHits(recs, q, chain, false));
    NoDupConcat(LiveHits(recs, q, chain, true), Backwards(LiveHits(recs, q, chain, false)));
    forall i | 0 <= i < |chain|
      ensures chain[i] in Answers(recs, q, chain)
              <==> Wanted(recs[chain[i]], q.prot, q.name)
                   && !Dead(recs, q.now, FreedBy(recs, q.now, chain[..i]), chain[i])
    {
      LiveMember(recs, q.now, chain, i);
    }
  }

  /**
    A lookup finds a record of the cache, in whatever chain and of whatever kind, if and only if it is wanted and not
    dead when the scan meets it; for all but CNAMEs this means that it has not expired.
   */
  lemma LookupMissesNothing(f: Fixed, s: State, q: Query, c: nat, id: Id)
    requires Inv(f, s) && c < |s.table| && id in s.table[c] && id in s.recs
    ensures var b, i := Bucket(f.mix, |s.table|, q.name), IndexOf(s.table[c], id);
            && AllIn(s.recs, s.table[b]) && AllIn(s.recs, s.table[c][..i])
            && (id in Answers(s.recs, q, s.table[b])
                <==> Wanted(s.recs[id], q.prot, q.name) && !Dead(s.recs, q.now, FreedBy(s.recs, q.now, s.table[c][..i]), id))
    ensures Cname !in s.recs[id].flags ==>
              (id in Answers(s.recs, q, s.table[Bucket(f.mix, |s.table|, q.name)])
               <==> Wanted(s.recs[id], q.prot, q.name) && !Expired(s.recs[id], q.now))
  {
    var b, i := Bucket(f.mix, |s.table|, q.name), IndexOf(s.table[c], id);
    assert ChainOk(f, s.recs, |s.table|, s.table[b], b) && ChainOk(f, s.recs, |s.table|, s.table[c], c);
    AnswersAreLiveWanted(s.recs, q, s.table[b]);
    assert s.table[c][i] == id;
  }

  /** After the scan the hits lead the LRU list, and nothing behind them is wanted. */
  lemma HitsLeadLru(f: Fixed, s: State, q: Query, b: nat)
    requires Inv(f, s) && b == Bucket(f.mix, |s.table|, q.name) && AllIn(s.recs, s.table[b])
    requires Inv(f, Scanned(s, q, b, |s.table[b]|))
    ensures var t := Scanned(s, q, b, |s.table[b]|);
            var hits := LiveHits(s.recs, q, s.table[b], false);
            && |hits| <= |t.lru| && t.lru[..|hits|] == Backwards(hits)
            && forall k | |hits| <= k < |t.lru| :: t.lru[k] in t.recs && !Wanted(t.recs[t.lru[k]], q.prot, q.name)
  {
    var chain := s.table[b];
    var t := Scanned(s, q, b, |chain|);
    assert chain[..|chain|] == chain && chain[|chain|..] == [];
    var hits := LiveHits(s.recs, q, chain, false);
    LruHead(s.lru, hits, FreedBy(s.recs, q.now, chain));
    assert AllIn(t.recs, t.lru) by { assert forall id | id in t.lru :: id in Elems(t.lru); }
    forall id | id in t.lru && Wanted(t.recs[id], q.prot, q.name) ensures id in t.lru[..|hits|] {
      WantedIsHit(f, s, q, b, id);
    }
    OnlyHeadWanted(t.recs, q, t.lru, |hits|);
  }

  lemma LruHead(lru: seq<Id>, hits: seq<Id>, freed: seq<Id>)
    ensures var after := LruAfter(lru, hits, freed);
            |hits| <= |after| && after[..|hits|] == Backwards(hits)
  {}

  lemma OnlyHeadWanted(recs: map<Id, Rec>, q: Query, lru: seq<Id>, n: nat)
    requires NoDup(lru) && n <= |lru| && AllIn(recs, lru)
    requires forall id | id in lru && Wanted(recs[id], q.prot, q.name) :: id in lru[..n]
    ensures forall k | n <= k < |lru| :: lru[k] in recs && !Wanted(recs[lru[k]], q.prot, q.name)
  {
    forall k | n <= k < |lru| ensures lru[k] in recs && !Wanted(recs[lru[k]], q.prot, q.name) {
      assert lru[k] in lru && lru[k] !in lru[..n];
    }
  }

  /** A pooled record still wanted after the scan is one of the hits. */
  lemma WantedIsHit(f: Fixed, s: State, q: Query, b: nat, id: Id)
    requires Inv(f, s) && b == Bucket(f.mix, |s.table|, q.name) && AllIn(s.recs, s.table[b])
    requires Inv(f, Scanned(s, q, b, |s.table[b]|))
    requires var t := Scanned(s, q, b, |s.table[b]|);
             id in t.lru && id in t.recs && Wanted(t.recs[id], q.prot, q.name)
    ensures id in LiveHits(s.recs, q, s.table[b], false)
  {
    var chain := s.table[b];
    var t := Scanned(s, q, b, |chain|);
    assert ChainOk(f, s.recs, |s.table|, chain, b);
    assert chain[..|chain|] == chain && chain[|chain|..] == [];
    assert Hashed(f, t, id);
    var live := Live(s.recs, q.now, chain);
    assert t.table[b] == KeptChain(s.recs, q, chain).Chain();
    RotatedElems(s.recs, q.prot, q.name, live);
    assert id in multiset(t.table[b]);
    assert id in multiset(live);
    FreedNotLive(s.recs, q.now, chain);
    RefreedAt(s.recs, FreedBy(s.recs, q.now, chain), s.uid, id);
    assert id in Elems(t.lru) && !Local(t.recs[id]);
  }

  /** Follow the `next` field: along the LRU list, or the link of a record that is not on it. */
  function NextOf(lru: seq<Id>, links: map<Id, Option<Id>>, id: Id): Option<Id> {
    if id in lru then
      var k := IndexOf(lru, id);
      if k + 1 < |lru| then Some(lru[k + 1]) else None
    else if id in links then links[id] else None
  }

  function HeadOf(lru: seq<Id>): Option<Id> {
    if lru == [] then None else Some(lru[0])
  }

  /** A candidate is returned if it is what was asked for. */
  function CheckedBy(recs: map<Id, Rec>, c: Option<Id>, want: Rec -> bool): Option<Id> {
    if c.Some? && c.value in recs && want(recs[c.value]) then c else None
  }

  function FirstOf(lru: seq<Id>, locals: seq<Id>): Option<Id> {
    if locals != [] then Some(locals[0]) else HeadOf(lru)
  }

  function WantedBy(q: Query): Rec -> bool {
    (r: Rec) => Wanted(r, q.prot, q.name)
  }

  function CheckedIn(recs: map<Id, Rec>, c: Option<Id>, q: Query): Option<Id> {
    CheckedBy(recs, c, WantedBy(q))
  }

  /** The local records of an answer are linked to each other, and the last one to the head of the LRU list. */
  predicate LinkedIn(lru: seq<Id>, links: map<Id, Option<Id>>, ids: seq<Id>) {
    forall k | 0 <= k < |ids| :: LinkedAt(lru, links, ids, k)
  }

  predicate LinkedAt(lru: seq<Id>, links: map<Id, Option<Id>>, ids: seq<Id>, k: nat)
    requires k < |ids|
  {
    && ids[k] in links && ids[k] !in lru
    && links[ids[k]] == if k + 1 < |ids| then Some(ids[k + 1]) else HeadOf(lru)
  }

  lemma AnswersStillWanted(f: Fixed, s: State, q: Query, b: nat)
    requires Inv(f, s) && b < |s.table| && AllIn(s.recs, s.table[b]) && NoDup(s.table[b])
    ensures var t := Scanned(s, q, b, |s.table[b]|);
            forall id | id in Answers(s.recs, q, s.table[b]) :: id in t.recs && Wanted(t.recs[id], q.prot, q.name)
  {
    var chain := s.table[b];
    assert chain[..|chain|] == chain;
    FreedNotLive(s.recs, q.now, chain);
    forall id | id in Answers(s.recs, q, chain)
      ensures id in Scanned(s, q, b, |chain|).recs && Wanted(Scanned(s, q, b, |chain|).recs[id], q.prot, q.name)
    {
      RefreedAt(s.recs, FreedBy(s.recs, q.now, chain), s.uid, id);
    }
  }

  predicate FollowsAt(recs: map<Id, Rec>, lru: seq<Id>, links: map<Id, Option<Id>>, want: Rec -> bool, all: seq<Id>, k: nat)
    requires k < |all|
  {
    CheckedBy(recs, NextOf(lru, links, all[k]), want) == if k + 1 < |all| then Some(all[k + 1]) else None
  }

  /** Each answer leads to the next one, and the last one to none. */
  predicate Follows(recs: map<Id, Rec>, lru: seq<Id>, links: map<Id, Option<Id>>, want: Rec -> bool, all: seq<Id>) {
    forall k | 0 <= k < |all| :: FollowsAt(recs, lru, links, want, all, k)
  }

  /** Positions in the list of answers, in terms of the LRU list. */
  lemma FollowingLists(recs: map<Id, Rec>, want: Rec -> bool, lru: seq<Id>, links: map<Id, Option<Id>>, locals: seq<Id>, hits: seq<Id>, k: nat)
    requires NoDup(lru) && |hits| <= |lru| && lru[..|hits|] == hits && LinkedIn(lru, links, locals)
    requires forall id | id in locals + hits :: id in recs && want(recs[id])
    requires forall j | |hits| <= j < |lru| :: lru[j] in recs && !want(recs[lru[j]])
    requires k < |locals + hits|
    ensures FollowsAt(recs, lru, links, want, locals + hits, k)
  {
    var all := locals + hits;
    assert k + 1 < |all| ==> all[k + 1] in all;
    if k < |locals| {
      assert LinkedAt(lru, links, locals, k);
      if |hits| > 0 {
        assert lru[..|hits|][0] == lru[0];
      }
    } else {
      var j := k - |locals|;
      assert lru[..|hits|][j] == lru[j];
      assert IndexOf(lru, lru[j]) == j;
      assert j + 1 < |hits| ==> lru[..|hits|][j + 1] == lru[j + 1];
    }
  }

  lemma FollowingAll(recs: map<Id, Rec>, want: Rec -> bool, lru: seq<Id>, links: map<Id, Option<Id>>, locals: seq<Id>, hits: seq<Id>)
    requires NoDup(lru) && |hits| <= |lru| && lru[..|hits|] == hits && LinkedIn(lru, links, locals)
    requires forall id | id in locals + hits :: id in recs && want(recs[id])
    requires forall j | |hits| <= j < |lru| :: lru[j] in recs && !want(recs[lru[j]])
    ensures var all := locals + hits;
            && CheckedBy(recs, FirstOf(lru, locals), want) == (if 0 < |all| then Some(all[0]) else None)
            && Follows(recs, lru, links, want, all)
  {
    var all := locals + hits;
    assert 0 < |all| ==> all[0] in all;
    assert |hits| > 0 ==> lru[..|hits|][0] == lru[0];
    forall k | 0 <= k < |all| ensures FollowsAt(recs, lru, links, want, all, k) {
      FollowingLists(recs, want, lru, links, locals, hits, k);
    }
  }

  /** The first call gives the first answer, each later one the next, and none comes after the last. */
  lemma NameAnswers(f: Fixed, s: State, q: Query, b: nat, links: map<Id, Option<Id>>)
    requires Inv(f, s) && b == Bucket(f.mix, |s.table|, q.name) && AllIn(s.recs, s.table[b]) && NoDup(s.table[b])
    requires var t := Scanned(s, q, b, |s.table[b]|);
             Inv(f, t) && LinkedIn(t.lru, links, LiveHits(s.recs, q, s.table[b], true))
    ensures var t, all := Scanned(s, q, b, |s.table[b]|), Answers(s.recs, q, s.table[b]);
            && CheckedIn(t.recs, FirstOf(t.lru, LiveHits(s.recs, q, s.table[b], true)), q) == (if 0 < |all| then Some(all[0]) else None)
            && Follows(t.recs, t.lru, links, WantedBy(q), all)
  {
    var t := Scanned(s, q, b, |s.table[b]|);
    HitsLeadLru(f, s, q, b);
    AnswersStillWanted(f, s, q, b);
    FollowingAll(t.recs, WantedBy(q), t.lru, links, LiveHits(s.recs, q, s.table[b], true),
                 Backwards(LiveHits(s.recs, q, s.table[b], false)));
  }

  lemma LocalsNotPooled(f: Fixed, s: State, q: Query, b: nat)
    requires Inv(f, s) && b < |s.table| && AllIn(s.recs, s.table[b]) && NoDup(s.table[b])
    requires Inv(f, Scanned(s, q, b, |s.table[b]|))
    ensures var locals := LiveHits(s.recs, q, s.table[b], true);
            NoDup(locals) && forall id | id in locals :: id !in Scanned(s, q, b, |s.table[b]|).lru
  {
    var t := Scanned(s, q, b, |s.table[b]|);
    LiveNoDup(s.recs, q.now, s.table[b]);
    HitsNoDup(s.recs, q.prot, q.name, Live(s.recs, q.now, s.table[b]), true);
    forall id | id in LiveHits(s.recs, q, s.table[b], true) ensures id !in t.lru {
      assert id in t.lru ==> id in Elems(t.lru);
      assert id in s.recs && Local(s.recs[id]);
    }
  }
}
