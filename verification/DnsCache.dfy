/**
  The DNS cache (external/dnsmasq/src/cache.c). The source's static variables are the fields; a
  pointer list is a sequence of record numbers, and a pointer into a chain is an index.
 */
module DnsCache {
  import opened Options
  import opened Lists
  import opened CacheState
  import opened CacheLookup
  import opened CacheRoom
  import opened CacheClears
  import opened CacheSweep
  import opened CacheInsert
  import opened CacheLocal

  class Cache {
    const f: Fixed
    var recs: map<Id, Rec>
    var table: seq<seq<Id>>
    var lru: seq<Id>
    var newChain: seq<Id>
    var bigFree: nat
    var bigLeft: nat
    var uid: int
    var insertError: bool
    /** The `next` field of records that are not on the LRU list. */
    var localNext: map<Id, Option<Id>>

    ghost function S(): State
      reads this
    {
      State(recs, table, lru, newChain, bigFree, bigLeft, uid)
    }

    ghost predicate Ok()
      reads this
    {
      Inv(f, S())
    }

    /** cache_unlink followed by cache_free. */
    method UnlinkAndFree(id: Id)
      requires id in lru && id in recs
      modifies this`recs, this`lru, this`bigFree, this`uid
      ensures S() == Release(old(S()), id)
    {
      lru := RemoveAt(lru, IndexOf(lru, id));
      var r := recs[id];
      recs := recs[id := FreedRec(r, uid)];
      uid := uid + 1;
      lru := lru + [id];
      if BigName in r.flags {
        bigFree := bigFree + 1;
      }
    }

    /** The body of the loop in cache_find_by_name, for the record at the scan position. */
    method ScanOne(q: Query, b: nat, v: Vars) returns (v': Vars)
      requires CanStep(S(), b, v)
      modifies this`recs, this`table, this`lru, this`bigFree, this`uid
      ensures S() == StepState(old(S()), q, b, v)
      ensures var id, r := old(table)[b][v.up], old(recs)[old(table)[b][v.up]];
              v' == StepVars(r, id, Expired(r, q.now) || Outdated(old(recs), r), q, v)
    {
      var id := table[b][v.up];
      var r := recs[id];
      v' := v;
      if !Expired(r, q.now) && !Outdated(recs, r) {
        if Forward in r.flags && r.flags * q.prot != {} && SameName(r.name, q.name) {
          if Local(r) {
            v' := v'.(localHits := v.localHits + [id]);
          } else {
            lru := [id] + RemoveAt(lru, IndexOf(lru, id));
          }
          if v.insert.Some? && Kind(r) == v.insFlags {
            table := table[b := InsertAt(RemoveAt(table[b], v.up), v.insert.value, id)];
            v' := v'.(insert := Some(v.insert.value + 1));
          } else if v.insert.None? {
            v' := v'.(insert := Some(v.up), insFlags := Kind(r));
          }
        }
        v' := v'.(up := v.up + 1);
      } else {
        table := table[b := RemoveAt(table[b], v.up)];
        if !Local(r) {
          UnlinkAndFree(id);
        }
      }
    }

    /** Scan the chain of a name: free what is dead, bring what is wanted to the front. */
    method ScanForName(q: Query) returns (localHits: seq<Id>)
      requires Ok()
      modifies this`recs, this`table, this`lru, this`bigFree, this`uid
      ensures Ok()
      ensures var b := Bucket(f.mix, |old(table)|, q.name);
              && AllIn(old(recs), old(table)[b])
              && S() == Scanned(old(S()), q, b, |old(table)[b]|)
              && localHits == LiveHits(old(recs), q, old(table)[b], true)
    {
      ghost var s := S();
      var b := Bucket(f.mix, |table|, q.name);
      ScanBegins(f, s, q, b);
      var v := Vars(0, None, {}, []);
      ghost var i := 0;
      while v.up < |table[b]|
        invariant |table| == |s.table| && Scanning(f, s, q, b, i, S(), v)
        decreases |s.table[b]| - i
      {
        ScanGoesOn(f, s, q, b, i, S(), v);
        v := ScanOne(q, b, v);
        i := i + 1;
      }
      ScanEnds(f, s, q, b, i, S(), v);
      localHits := v.localHits;
    }

    method LinkLocals(ids: seq<Id>)
      requires NoDup(ids) && forall id | id in ids :: id !in lru
      modifies this`localNext
      ensures LinkedIn(lru, localNext, ids)
    {
      for k := 0 to |ids|
        invariant forall j | 0 <= j < k :: LinkedAt(lru, localNext, ids, j)
      {
        assert forall j | 0 <= j < k :: ids[j] != ids[k] && LinkedAt(lru, localNext, ids, j);
        localNext := localNext[ids[k] := if k + 1 < |ids| then Some(ids[k + 1]) else HeadOf(lru)];
      }
    }

    /** Scan for a name and give the candidate for its first answer. */
    method StartSearch(q: Query) returns (c: Option<Id>)
      requires Ok()
      modifies this`recs, this`table, this`lru, this`bigFree, this`uid, this`localNext
      ensures Ok()
      ensures var b := Bucket(f.mix, |old(table)|, q.name);
              && AllIn(old(recs), old(table)[b])
              && S() == Scanned(old(S()), q, b, |old(table)[b]|)
              && var locals := LiveHits(old(recs), q, old(table)[b], true);
                 LinkedIn(lru, localNext, locals) && c == FirstOf(lru, locals)
    {
      ghost var s, b := S(), Bucket(f.mix, |table|, q.name);
      assert ChainOk(f, recs, |table|, table[b], b);
      var locals := ScanForName(q);
      LocalsNotPooled(f, s, q, b);
      LinkLocals(locals);
      c := FirstOf(lru, locals);
    }

    /** cache_find_by_name: with no record, start a search; with one, give the next answer. */
    method FindByName(crec: Option<Id>, q: Query) returns (ans: Option<Id>)
      requires Ok()
      modifies this`recs, this`table, this`lru, this`bigFree, this`uid, this`localNext
      ensures Ok()
      ensures crec.Some? ==> S() == old(S()) && localNext == old(localNext) && ans == CheckedIn(recs, NextOf(lru, localNext, crec.value), q)
      ensures crec.None? ==>
                var b := Bucket(f.mix, |old(table)|, q.name);
                && AllIn(old(recs), old(table)[b])
                && S() == Scanned(old(S()), q, b, |old(table)[b]|)
                && var locals := LiveHits(old(recs), q, old(table)[b], true);
                   && LinkedIn(lru, localNext, locals)
                   && ans == CheckedIn(recs, FirstOf(lru, locals), q)
    {
      var c: Option<Id>;
      if crec.Some? {
        c := NextOf(lru, localNext, crec.value);
      } else {
        c := StartSearch(q);
      }
      ans := CheckedIn(recs, c, q);
    }

    /**
      Asking until there is no further answer gives exactly the live wanted records of the name's
      chain, each once, although the first call frees, promotes and rotates.
     */
    method LookupAll(q: Query) returns (all: seq<Id>)
      requires Ok()
      modifies this`recs, this`table, this`lru, this`bigFree, this`uid, this`localNext
      ensures Ok()
      ensures var b := Bucket(f.mix, |old(table)|, q.name);
              && AllIn(old(recs), old(table)[b]) && NoDup(old(table)[b])
              && all == Answers(old(recs), q, old(table)[b])
              && S() == Scanned(old(S()), q, b, |old(table)[b]|)
    {
      ghost var s, b := S(), Bucket(f.mix, |table|, q.name);
      assert ChainOk(f, recs, |table|, table[b], b);
      var cur := FindByName(None, q);
      NameAnswers(f, s, q, b, localNext);
      ghost var answers := Answers(s.recs, q, s.table[b]);
      all := FollowAnswers(cur, q, answers);
    }

    method FollowAnswers(first: Option<Id>, q: Query, ghost answers: seq<Id>) returns (all: seq<Id>)
      requires Ok() && first == (if 0 < |answers| then Some(answers[0]) else None)
      requires Follows(recs, lru, localNext, WantedBy(q), answers)
      modifies this`recs, this`table, this`lru, this`bigFree, this`uid, this`localNext
      ensures S() == old(S()) && localNext == old(localNext) && all == answers
    {
      all := [];
      var cur := first;
      ghost var k := 0;
      while cur.Some?
        invariant 0 <= k <= |answers| && all == answers[..k]
        invariant S() == old(S()) && localNext == old(localNext)
        invariant cur == if k < |answers| then Some(answers[k]) else None
        decreases |answers| - k
      {
        all := all + [cur.value];
        assert cur.value == answers[k] && FollowsAt(recs, lru, localNext, WantedBy(q), answers, k);
        cur := FindByName(cur, q);
        k := k + 1;
      }
    }

    /** Take a record out of its chain; a pooled one is freed. */
    method DropAt(b: nat, up: nat)
      requires b < |table| && up < |table[b]| && table[b][up] in recs
      requires Local(recs[table[b][up]]) || table[b][up] in lru
      modifies this`recs, this`table, this`lru, this`bigFree, this`uid
      ensures S() == Drop(old(S()), b, up)
    {
      var id := table[b][up];
      table := table[b := RemoveAt(table[b], up)];
      if !Local(recs[id]) {
        UnlinkAndFree(id);
      }
    }

    /** Deal with the record at the place of a sweep. */
    method TakeTurn(b: nat, c: Cursor, act: Act) returns (c': Cursor)
      requires CanTurn(S(), b, c)
      modifies this`recs, this`table, this`lru, this`bigFree, this`uid
      ensures S() == TurnState(old(S()), b, c, act)
      ensures var id := old(table)[b][c.up]; c' == TurnCursor(Local(old(recs)[id]), id, c, act)
    {
      var id := table[b][c.up];
      c' := c;
      if act == Discard {
        DropAt(b, c.up);
      } else {
        c' := c.(up := c.up + 1);
        if act == Hit {
          if Local(recs[id]) {
            c' := c'.(locals := c.locals + [id]);
          } else {
            lru := [id] + RemoveAt(lru, IndexOf(lru, id));
          }
        }
      }
    }

    /** Sweep one chain until the rule stops it. */
    method SweepChain(b: nat, rule: Rule) returns (locals: seq<Id>)
      requires Ok() && b < |table|
      modifies this`recs, this`table, this`lru, this`bigFree, this`uid
      ensures Ok() && AllIn(old(recs), old(table)[b])
      ensures var w := SweepOf(old(recs), JudgeBy(old(recs), rule), old(table)[b]);
              S() == Partway(old(S()), b, w.p, []) && locals == w.locals
    {
      ghost var s, judge := S(), JudgeBy(recs, rule);
      SweepBegins(f, s, b, judge);
      var c := Cursor(0, []);
      ghost var i := 0;
      while c.up < |table[b]|
        invariant |table| == |s.table| && Sweeping(f, s, b, judge, i, S(), c)
        decreases |s.table[b]| - i
      {
        SweepGoesOn(f, s, b, judge, i, S(), c);
        var act := rule(recs[table[b][c.up]]);
        if act == Stop {
          break;
        }
        c := TakeTurn(b, c, act);
        i := i + 1;
      }
      SweepEnds(f, s, b, judge, i, S(), c);
      locals := c.locals;
    }

    /** cache_scan_free for a name: false if the name belongs to a hosts file or a lease. */
    method ScanFreeName(name: string, now: int, flags: set<Flag>) returns (ok: bool)
      requires Ok()
      modifies this`recs, this`table, this`lru, this`bigFree, this`uid
      ensures Ok()
      ensures var b := Bucket(f.mix, |old(table)|, name);
              && AllIn(old(recs), old(table)[b])
              && var w := SweepOf(old(recs), NameJudge(old(recs), name, now, flags), old(table)[b]);
                 S() == Partway(old(S()), b, w.p, []) && ok == !w.stopped
    {
      var b := Bucket(f.mix, |table|, name);
      ghost var s, judge := S(), NameJudge(recs, name, now, flags);
      SweepBegins(f, s, b, judge);
      var c := Cursor(0, []);
      ghost var i := 0;
      ok := true;
      while c.up < |table[b]|
        invariant |table| == |s.table| && Sweeping(f, s, b, judge, i, S(), c)
        decreases |s.table[b]| - i
      {
        SweepGoesOn(f, s, b, judge, i, S(), c);
        NameActIs(s.recs, recs, SweepOf(s.recs, judge, s.table[b][..i]).p.freed, s.table[b][i], name, now, flags);
        var act := NameTurn(recs, recs[table[b][c.up]], name, now, flags);
        if act == Stop {
          ok := false;
          break;
        }
        c := TakeTurn(b, c, act);
        i := i + 1;
      }
      SweepEnds(f, s, b, judge, i, S(), c);
    }

    /** The tests of cache_scan_free on one record of the chain of a name. */
    static method NameTurn(recs: map<Id, Rec>, r: Rec, name: string, now: int, flags: set<Flag>) returns (act: Act)
      ensures act == NameAct(recs, r, name, now, flags)
    {
      act := Keep;
      if Expired(r, now) || Outdated(recs, r) {
        act := Discard;
      } else if Replaces(r, name, flags) {
        act := if Local(r) then Stop else Discard;
      }
    }

    /** cache_scan_free for an address, or for nothing but expired records: every chain, up to its immortal records. */
    method ScanFreeAll(addr: seq<int>, now: int, flags: set<Flag>)
      requires Ok()
      modifies this`recs, this`table, this`lru, this`bigFree, this`uid
      ensures SweptFrom(f, old(S()), addr, now, flags, |old(table)|)(S())
    {
      ghost var s := S();
      ProgressBegins(f, s, Stale(addr, now, flags));
      var b, n := 0, |table|;
      while b < n
        invariant b <= n && SweptFrom(f, s, addr, now, flags, b)(S())
      {
        SweepBucket(b, addr, now, flags, s);
        b := b + 1;
      }
    }

    method SweepBucket(b: nat, addr: seq<int>, now: int, flags: set<Flag>, ghost s: State)
      requires SweptFrom(f, s, addr, now, flags, b)(S()) && b < |s.table|
      modifies this`recs, this`table, this`lru, this`bigFree, this`uid
      ensures SweptFrom(f, s, addr, now, flags, b + 1)(S())
    {
      ghost var t := S();
      var rule := StaleRule(addr, now, flags);
      var _ := SweepChain(b, rule);
      RulesStopSafely(addr, now, flags);
      ProgressGoesOn(f, s, t, b, rule, Stale(addr, now, flags), Nothing(), S());
      if !HasStale(s, addr, now, flags) {
        QuietStep(f, s, t, b, addr, now, flags, S());
      }
    }

    /**
      The scan of cache_find_by_addr: only the leading reverse records of each chain are looked at.
      The local records found are given, the pooled ones are at the head of the LRU list.
     */
    method ScanForAddr(addr: seq<int>, now: int, prot: set<Flag>) returns (locals: seq<Id>, ghost hits: seq<Id>)
      requires Ok()
      modifies this`recs, this`table, this`lru, this`bigFree, this`uid
      ensures Ok() && newChain == old(newChain) && SweptBelow(old(S()), S(), |old(table)|, ExpiredName(now))
      ensures FoundBelow(old(S()), |old(table)|, Names(addr, now, prot), locals, hits) && Leads(hits, lru)
    {
      ghost var s, victim, want := S(), ExpiredName(now), Names(addr, now, prot);
      var rule := AddrRule(addr, now, prot);
      RulesStopSafely(addr, now, prot);
      ProgressBegins(f, s, victim);
      locals, hits := [], [];
      var b := 0;
      while b < |table|
        invariant Progressing(f, s, S(), b, victim) && Finding(s, S(), b, want, locals, hits)
      {
        locals, hits := FindInBucket(b, rule, s, victim, want, locals, hits);
        b := b + 1;
      }
    }

    /** cache_find_by_addr: with no record, start a search; with one, give the next answer. */
    method FindByAddr(crec: Option<Id>, addr: seq<int>, now: int, prot: set<Flag>)
      returns (ans: Option<Id>, ghost locals: seq<Id>, ghost hits: seq<Id>)
      requires Ok()
      modifies this`recs, this`table, this`lru, this`bigFree, this`uid, this`localNext
      ensures Ok()
      ensures crec.Some? ==> S() == old(S()) && localNext == old(localNext)
                             && ans == CheckedBy(recs, NextOf(lru, localNext, crec.value), HasAddr(addr, prot))
      ensures crec.None? ==> AddrFound(f, old(S()), S(), addr, now, prot, locals, hits, localNext)
                             && ans == CheckedBy(recs, FirstOf(lru, locals), HasAddr(addr, prot))
    {
      locals, hits := [], [];
      var c: Option<Id>;
      if crec.Some? {
        c := NextOf(lru, localNext, crec.value);
      } else {
        ghost var s := S();
        var found;
        found, hits := ScanForAddr(addr, now, prot);
        FoundLocals(f, s, S(), addr, now, prot, found, hits);
        LinkLocals(found);
        locals := found;
        c := FirstOf(lru, found);
      }
      ans := CheckedBy(recs, c, HasAddr(addr, prot));
    }

    /** Asking until there is no further answer gives exactly the live reverse records of the address, each once. */
    method LookupAddr(addr: seq<int>, now: int, prot: set<Flag>) returns (all: seq<Id>, ghost locals: seq<Id>, ghost hits: seq<Id>)
      requires Ok()
      modifies this`recs, this`table, this`lru, this`bigFree, this`uid, this`localNext
      ensures Ok() && all == locals + Backwards(hits)
      ensures AddrFound(f, old(S()), S(), addr, now, prot, locals, hits, localNext)
    {
      ghost var s, want := S(), HasAddr(addr, prot);
      var cur;
      cur, locals, hits := FindByAddr(None, addr, now, prot);
      ghost var answers := locals + Backwards(hits);
      AddrAnswers(f, s, S(), addr, now, prot, locals, hits, localNext);
      all := FollowAddr(cur, addr, now, prot, answers);
    }

    method FollowAddr(first: Option<Id>, addr: seq<int>, now: int, prot: set<Flag>, ghost answers: seq<Id>) returns (all: seq<Id>)
      requires Ok() && first == (if 0 < |answers| then Some(answers[0]) else None)
      requires Follows(recs, lru, localNext, HasAddr(addr, prot), answers)
      modifies this`recs, this`table, this`lru, this`bigFree, this`uid, this`localNext
      ensures S() == old(S()) && localNext == old(localNext) && all == answers
    {
      all := [];
      var cur := first;
      ghost var k := 0;
      while cur.Some?
        invariant 0 <= k <= |answers| && all == answers[..k]
        invariant S() == old(S()) && localNext == old(localNext)
        invariant cur == if k < |answers| then Some(answers[k]) else None
        decreases |answers| - k
      {
        all := all + [cur.value];
        assert cur.value == answers[k] && FollowsAt(recs, lru, localNext, HasAddr(addr, prot), answers, k);
        ghost var ls: seq<Id>, hs: seq<Id>;
        cur, ls, hs := FindByAddr(cur, addr, now, prot);
        k := k + 1;
      }
    }

    method FindInBucket(b: nat, rule: Rule, ghost s: State, ghost victim: Rec -> bool, ghost want: Rec -> bool,
                        locals: seq<Id>, ghost hits: seq<Id>)
      returns (locals': seq<Id>, ghost hits': seq<Id>)
      requires Progressing(f, s, S(), b, victim) && Finding(s, S(), b, want, locals, hits)
      requires b < |table| && StopsSafely(rule, victim, want)
      modifies this`recs, this`table, this`lru, this`bigFree, this`uid
      ensures Progressing(f, s, S(), b + 1, victim) && Finding(s, S(), b + 1, want, locals', hits')
    {
      ghost var t := S();
      BucketFound(f, s, t, b, rule, victim, want, locals, hits);
      hits' := hits + SweepOf(recs, JudgeBy(recs, rule), table[b]).p.hits;
      var more := SweepChain(b, rule);
      ProgressGoesOn(f, s, t, b, rule, victim, want, S());
      locals' := locals + more;
    }

    // ----- inserting -----

    /** cache_hash: reverse records lead a chain and immortal ones that are not reverse end it. */
    method CacheHash(id: Id)
      requires |table| > 0 && id in recs
      requires var chain := table[Bucket(f.mix, |table|, recs[id].name)];
               (forall x | x in chain :: x in recs) && Ordered(recs, chain)
      modifies this`table
      ensures table == HashIn(f.mix, recs, old(table), id)
    {
      var b := Bucket(f.mix, |table|, recs[id].name);
      var up := FindPlace(recs, table[b], recs[id]);
      table := table[b := InsertAt(table[b], up, id)];
    }

    /** The two loops of cache_hash, over a chain in order. */
    static method FindPlace(recs: map<Id, Rec>, chain: seq<Id>, r: Rec) returns (up: nat)
      requires (forall x | x in chain :: x in recs) && Ordered(recs, chain)
      ensures up == Place(recs, chain, Class(r))
    {
      up := 0;
      if Reverse !in r.flags {
        while up < |chain| && Reverse in recs[chain[up]].flags
          invariant up <= |chain| && forall i | 0 <= i < up :: Class(recs[chain[i]]) == 0
        {
          up := up + 1;
        }
        ghost var first := up;
        if Immortal in r.flags {
          while up < |chain| && Immortal !in recs[chain[up]].flags
            invariant first <= up <= |chain| && forall i | 0 <= i < up :: Class(recs[chain[i]]) < 2
          {
            up := up + 1;
          }
        }
        assert up < |chain| ==> Class(recs[chain[first]]) <= Class(recs[chain[up]]);
      }
    }

    /** cache_free of the first record of the new chain. */
    method AbandonFirst()
      requires newChain != [] && newChain[0] in recs
      modifies this`recs, this`lru, this`newChain, this`bigFree, this`uid
      ensures S() == Abandon(old(S()))
    {
      var id := newChain[0];
      var r := recs[id];
      newChain := newChain[1..];
      recs := recs[id := FreedRec(r, uid)];
      uid := uid + 1;
      lru := lru + [id];
      if BigName in r.flags {
        bigFree := bigFree + 1;
      }
    }

    /** cache_start_insert: what an aborted insert left goes back to the pool, untouched records stay. */
    method StartInsert()
      requires Ok()
      modifies this`recs, this`lru, this`newChain, this`bigFree, this`uid, this`insertError
      ensures Ok() && !insertError && GivenBack(old(S()), |old(newChain)|, S())
    {
      ghost var s, i := S(), 0;
      while newChain != []
        invariant Ok() && GivenBack(s, i, S())
        decreases |newChain|
      {
        NewNotHashed(f, S(), newChain[0]);
        AbandonOk(f, S());
        GiveBackNext(s, i, S());
        AbandonFirst();
        i := i + 1;
      }
      insertError := false;
    }

    /** The target of a new CNAME: another new record, known by its serial number. */
    method SetTarget(id: Id, target: Id)
      requires Ok() && id in newChain && target in newChain
      modifies this`recs
      ensures Ok() && id in old(recs) && target in old(recs) && !Outdated(recs, recs[id])
      ensures recs == old(recs)[id := old(recs)[id].(target := Some(target), targetUid := old(recs)[target].uid)]
    {
      TargetOk(f, S(), id, target);
      recs := recs[id := recs[id].(target := Some(target), targetUid := recs[target].uid)];
    }

    /** Settle the first new record. */
    method CommitFirstNew()
      requires CanCommit(f, S())
      modifies this`recs, this`table, this`lru, this`newChain, this`bigFree, this`uid
      ensures S() == CommitOne(f, old(S()))
    {
      var id := newChain[0];
      if Outdated(recs, recs[id]) {
        AbandonFirst();
      } else {
        newChain := newChain[1..];
        CacheHash(id);
        lru := [id] + lru;
      }
    }

    /** cache_end_insert: unless the insert failed, every new record is settled. */
    method EndInsert()
      requires Ok()
      modifies this`recs, this`table, this`lru, this`newChain, this`bigFree, this`uid
      ensures InvOf(f)(S())
      ensures if insertError then S() == old(S()) else Committed(f, old(S()), |old(newChain)|, S())
    {
      if !insertError {
        ghost var s := S();
        CommitBegins(f, s);
        ghost var i := CommitAll(s);
        CommitEnds(f, s, i, S());
      }
    }

    method CommitAll(ghost s: State) returns (ghost i: nat)
      requires CommittingFrom(f, s, 0)(S())
      modifies this`recs, this`table, this`lru, this`newChain, this`bigFree, this`uid
      ensures CommittingFrom(f, s, i)(S()) && newChain == []
    {
      i := 0;
      while newChain != []
        invariant CommittingFrom(f, s, i)(S())
        decreases |newChain|
      {
        CommitRound(s, i);
        i := i + 1;
      }
    }

    method CommitRound(ghost s: State, ghost i: nat)
      requires CommittingFrom(f, s, i)(S()) && newChain != []
      modifies this`recs, this`table, this`lru, this`newChain, this`bigFree, this`uid
      ensures CommittingFrom(f, s, i + 1)(S()) && |newChain| < |old(newChain)|
    {
      CommitGoesOn(f, s, i, S());
      CommitFirstNew();
    }

    /** cache_scan_free: for a forward record its name, otherwise its address or nothing. */
    method ScanFree(name: string, addr: seq<int>, now: int, flags: set<Flag>) returns (ok: bool)
      requires Ok()
      modifies this`recs, this`table, this`lru, this`bigFree, this`uid
      ensures FreedFrom(f, old(S()), name, addr, now, flags)(S()) && ok == NameFree(f, old(S()), name, now, flags)
    {
      ghost var s := S();
      if Forward in flags {
        ok := ScanFreeName(name, now, flags);
        NewUntouched(f, s, Bucket(f.mix, |s.table|, name), NameJudge(s.recs, name, now, flags));
      } else {
        ScanFreeAll(addr, now, flags);
        ok := true;
      }
    }

    /**
      The loop of cache_insert: within three rounds there is a free record at the tail of the LRU list if and only if
      there was room, and a live record has been thrown out if and only if none was free and none had expired.
     */
    method FreeTail(now: int, swept: bool) returns (found: bool, ghost rounds: nat)
      requires Ok()
      modifies this`recs, this`table, this`lru, this`bigFree, this`uid
      ensures SearchedFrom(f, old(S()), now, swept, found)(S()) && rounds <= 3
    {
      ghost var s := S();
      var h := Hunt(swept, false, false, false, 0);
      HuntBegins(f, s, now, swept);
      while !h.over && lru != []
        invariant HuntFrom(f, s, now, swept, h)(S())
        decreases if h.over then 0 else 1, Pending(h)
      {
        h := HuntOn(now, swept, h, s);
      }
      HuntEnds(f, s, S(), now, swept, h);
      found, rounds := h.found, h.rounds;
    }

    /** One round: the tail is free, or there is nothing more to try, or expired records go, or the tail. */
    method HuntOn(now: int, ghost swept: bool, h: Hunt, ghost s: State) returns (h': Hunt)
      requires HuntFrom(f, s, now, swept, h)(S()) && !h.over && lru != []
      modifies this`recs, this`table, this`lru, this`bigFree, this`uid
      ensures HuntFrom(f, s, now, swept, h')(S()) && (h'.over || Pending(h') < Pending(h)) && h'.rounds == h.rounds + 1
    {
      ghost var t := S();
      HuntOver(f, s, t, now, swept, h);
      var tail := recs[lru[|lru| - 1]];
      h' := h.(rounds := h.rounds + 1);
      if !InUse(tail) {
        h' := h'.(found := true, over := true);
      } else if h.freeAvail {
        h' := h'.(over := true);
      } else if h.freedAll {
        h' := h'.(freeAvail := true);
        var _ := ScanFree(tail.name, tail.addr, now, tail.flags);
        HuntSpills(f, s, t, S(), now, swept, h);
      } else {
        h' := h'.(freedAll := true);
        var _ := ScanFree("", [], now, {});
        HuntExpires(f, s, t, S(), now, h);
      }
    }

    /** Take the free record at the tail of the LRU list, and a buffer if the name is long. */
    method TakeTail(flags: set<Flag>, name: string, addr: Option<seq<int>>, ttd: int) returns (id: Id)
      requires CanTake(S(), name)
      modifies this`recs, this`lru, this`newChain, this`bigFree, this`bigLeft
      ensures id == old(lru)[|old(lru)| - 1] && S() == Taken(old(S()), flags, name, addr, ttd)
    {
      id := lru[|lru| - 1];
      if |name| > SMALL_NAME {
        if bigFree > 0 {
          bigFree := bigFree - 1;
        } else {
          bigLeft := bigLeft - 1;
        }
      }
      lru := lru[..|lru| - 1];
      recs := recs[id := Filled(recs[id], flags, name, addr, ttd, |name| > SMALL_NAME)];
      newChain := [id] + newChain;
    }

    /** Remove what the new record replaces, then look for a free record. */
    method MakeRoom(e: Entry, now: int) returns (found: bool, ghost rounds: nat, ghost m: Steps)
      requires Ok()
      modifies this`recs, this`table, this`lru, this`bigFree, this`uid
      ensures RoomFrom(f, old(S()), e, now, found, m)(S()) && rounds <= 3
    {
      rounds := 0;
      found := ScanFree(e.name, AddrOf(e.addr), now, e.flags - {Config});
      ghost var mid := S();
      if found {
        found, rounds := FreeTail(now, Reverse in e.flags);
      }
      m := Steps(mid, S());
    }

    /** Take the tail, if it is free and there is a buffer for a long name. */
    method TakeIfFree(e: Entry, now: int, alloc: bool, found: bool) returns (id: Option<Id>)
      requires found ==> lru != [] && lru[|lru| - 1] in recs && !InUse(recs[lru[|lru| - 1]])
      modifies this`recs, this`lru, this`newChain, this`bigFree, this`bigLeft
      ensures TookFrom(old(S()), e, now, alloc, found, id)(S())
    {
      id := None;
      if found && (|e.name| <= SMALL_NAME || bigFree > 0 || (bigLeft > 0 && alloc)) {
        var taken := TakeTail(e.flags, e.name, e.addr, now + e.ttl);
        id := Some(taken);
      }
    }

    /**
      cache_insert. Within three rounds of its loop it gives a new record, exactly if the name is free, there is room and
      there is a buffer for a long name; otherwise it sets the error flag, and after an error it does nothing.
     */
    method Insert(e: Entry, now: int, alloc: bool) returns (id: Option<Id>, ghost rounds: nat, ghost found: bool, ghost m: Steps)
      requires Ok() && Insertable(e.flags)
      modifies this`recs, this`table, this`lru, this`newChain, this`bigFree, this`bigLeft, this`uid, this`insertError
      ensures InvOf(f)(S()) && rounds <= 3 && (insertError <==> id.None?)
      ensures if old(insertError) then S() == old(S()) && id.None?
              else RoomFrom(f, old(S()), e, now, found, m)(m.room) && TookFrom(m.room, e, now, alloc, found, id)(S())
      ensures id.Some? ==> ClearFor(e)(S())
    {
      id, rounds, found, m := None, 0, false, Steps(S(), S());
      if !insertError {
        id, rounds, found, m := TryInsert(e, now, alloc);
        insertError := id.None?;
      }
    }

    method TryInsert(e: Entry, now: int, alloc: bool) returns (id: Option<Id>, ghost rounds: nat, ghost found: bool, ghost m: Steps)
      requires Ok() && Insertable(e.flags)
      modifies this`recs, this`table, this`lru, this`newChain, this`bigFree, this`bigLeft, this`uid
      ensures RoomFrom(f, old(S()), e, now, found, m)(m.room) && TookFrom(m.room, e, now, alloc, found, id)(S())
      ensures InvOf(f)(S()) && rounds <= 3 && (id.Some? ==> ClearFor(e)(S()))
    {
      ghost var s := S();
      var free;
      free, rounds, m := MakeRoom(e, now);
      found := free;
      RoomIsOk(f, s, e, now, m);
      id := TakeIfFree(e, now, alloc, free);
      TookIsOk(f, m.room, S(), e, now, alloc, found, id);
      if id.Some? {
        InsertionClears(f, s, S(), e, now, alloc, found, id, m);
      }
    }

    // ----- the hash table -----

    /** The size of the hash table: a power of two. */
    static method TableSize(size: nat) returns (n: nat, ghost doublings: nat)
      ensures n == 64 * Power2(doublings) && n >= size / 10 && (doublings > 0 ==> n / 2 < size / 10)
    {
      n, doublings := 64, 0;
      while n < size / 10
        invariant n == 64 * Power2(doublings) && (doublings > 0 ==> n / 2 < size / 10)
        decreases size / 10 - n
      {
        n, doublings := n * 2, doublings + 1;
      }
    }

    /** cache_init: every record is free, the youngest first, and every chain is empty. */
    constructor (cacheSize: nat, mix: string -> nat)
      ensures Ok() && !insertError && newChain == [] && |lru| == cacheSize && bigLeft == cacheSize / 10 && localNext == map[]
      ensures forall c | 0 <= c < |table| :: table[c] == []
    {
      var free := map i: nat | i < cacheSize :: Rec({}, "", [], None, 0, 0, i);
      f := Fixed(mix, free.Keys, cacheSize / 10);
      recs := free;
      lru := seq(cacheSize, i requires 0 <= i < cacheSize => cacheSize - 1 - i);
      newChain := [];
      bigFree, bigLeft, uid := 0, cacheSize / 10, cacheSize;
      insertError := false;
      localNext := map[];
      var n, _ := TableSize(cacheSize);
      table := seq(n, i => []);
      new;
      EmptyOk(f, S(), cacheSize);
    }

    /** rehash: a larger table with the same records, each in the chain of its name. */
    method Rehash(size: nat, alloc: bool)
      requires Ok()
      modifies this`table
      ensures Ok() && |table| >= |old(table)|
      ensures alloc ==> |table| >= size / 10
      ensures forall id :: Somewhere(table, id) <==> Somewhere(old(table), id)
    {
      var n, _ := TableSize(size);
      if n <= |table| || !alloc {
        return;
      }
      var before := table;
      ghost var s := S();
      table := seq(n, i => []);
      RehashBegins(f, s, S());
      var b := 0;
      while b < |before|
        invariant b <= |before| && |table| == n && Rehashing(f, s, S(), ElemsOf(before, b))
      {
        NextChain(f, s, b);
        RehashChain(before[b], s, ElemsOf(before, b));
        b := b + 1;
      }
      RehashedOk(f, s, S());
    }

    method RehashChain(chain: seq<Id>, ghost s: State, ghost done: set<Id>)
      requires NoDup(chain) && forall id | id in chain :: id in s.recs && InUse(s.recs[id]) && id !in done
      requires Rehashing(f, s, S(), done)
      modifies this`table
      ensures |table| == |old(table)| && Rehashing(f, s, S(), done + Elems(chain))
    {
      var i := 0;
      assert done + Elems(chain[..0]) == done;
      while i < |chain|
        invariant i <= |chain| && |table| == |old(table)| && Rehashing(f, s, S(), done + Elems(chain[..i]))
      {
        assert chain[..i + 1] == chain[..i] + [chain[i]];
        assert done + Elems(chain[..i + 1]) == done + Elems(chain[..i]) + {chain[i]};
        RehashStep(f, s, S(), done + Elems(chain[..i]), chain[i]);
        CacheHash(chain[i]);
        i := i + 1;
      }
      assert chain[..i] == chain;
    }

    // ----- local records -----

    /** The end of cache_add_dhcp_entry and of add_hosts_entry: the record is hashed. */
    method AddLocal(id: Id, r: Rec)
      requires Ok() && Addable(f, S(), id, r)
      modifies this`recs, this`table, this`uid
      ensures Ok() && LocalAdded(f, old(S()), S(), id, r)
    {
      LocalAddedOk(f, S(), id, r);
      ReadyToHash(f, S(), id, r);
      recs := recs[id := r];
      if Dhcp in r.flags && Cname !in r.flags {
        uid := uid + 1;
      }
      CacheHash(id);
    }

    /** cache_unhash_dhcp: exactly the DHCP records are taken out of the chains. */
    method UnhashDhcp()
      requires Ok()
      modifies this`table
      ensures InvOf(f)(S()) && UnleasedFrom(old(S()), |old(table)|)(S())
    {
      ghost var s := S();
      UnleaseBegins(f, s);
      var b := 0;
      while b < |table|
        invariant b <= |table| == |s.table| && InvOf(f)(S()) && UnleasedFrom(s, b)(S())
      {
        UnhashChain(b, s);
        b := b + 1;
      }
    }

    method UnhashChain(b: nat, ghost s: State)
      requires InvOf(f)(S()) && b < |table| && UnleasedFrom(s, b)(S())
      modifies this`table
      ensures |table| == |old(table)| && InvOf(f)(S()) && UnleasedFrom(s, b + 1)(S())
    {
      ghost var t := S();
      ThinningBegins(recs, NotDhcp(), table[b]);
      ghost var k, i := UnhashRecords(b, table[b]);
      UnleaseChain(s, t, S(), b, k, i);
    }

    /** The inner loop of cache_unhash_dhcp. */
    method UnhashRecords(b: nat, ghost before: seq<Id>) returns (ghost k: nat, i: nat)
      requires InvOf(f)(S()) && b < |table| && ThinningFrom(recs, NotDhcp(), before, 0)(table[b], 0)
      modifies this`table
      ensures |table| == |old(table)| && table == old(table)[b := table[b]] && i >= |table[b]|
      ensures InvOf(f)(S()) && ThinningFrom(recs, NotDhcp(), before, k)(table[b], i)
    {
      k, i := 0, 0;
      while i < |table[b]|
        invariant |table| == |old(table)| && table == old(table)[b := table[b]]
        invariant InvOf(f)(S()) && ThinningFrom(recs, NotDhcp(), before, k)(table[b], i)
        decreases |before| - k
      {
        i := UnhashRound(b, i, before, old(table), k);
        k := k + 1;
      }
    }

    method UnhashRound(b: nat, i: nat, ghost before: seq<Id>, ghost was: seq<seq<Id>>, ghost k: nat) returns (up: nat)
      requires InvOf(f)(S()) && b < |table| == |was| && table == was[b := table[b]] && i < |table[b]|
      requires ThinningFrom(recs, NotDhcp(), before, k)(table[b], i)
      modifies this`table
      ensures |table| == |was| && table == was[b := table[b]] && k < |before|
      ensures InvOf(f)(S()) && ThinningFrom(recs, NotDhcp(), before, k + 1)(table[b], up)
    {
      ThinningOn(recs, NotDhcp(), before, table[b], k, i);
      ghost var now := table;
      up := UnhashAt(b, i);
      SetAgain(was, now, b, table[b]);
    }

    /** One round of the inner loop of cache_unhash_dhcp. */
    method UnhashAt(b: nat, i: nat) returns (up: nat)
      requires InvOf(f)(S()) && b < |table| && i < |table[b]| && table[b][i] in recs
      modifies this`table
      ensures InvOf(f)(S())
      ensures if Dhcp in recs[old(table)[b][i]].flags then table == old(table)[b := RemoveAt(old(table)[b], i)] && up == i
              else table == old(table) && up == i + 1
    {
      up := i + 1;
      if Dhcp in recs[table[b][i]].flags {
        UnleaseOne(f, S(), b, i);
        table := table[b := RemoveAt(table[b], i)];
        up := i;
      }
    }

    /** The loop at the start of cache_reload. */
    method ClearForReload()
      requires Ok()
      modifies this`recs, this`table, this`bigFree
      ensures InvOf(f)(S()) && ReloadedFrom(f, old(S()))(S())
    {
      ghost var s := S();
      ClearingBegins(f, s);
      ClearChains(s);
      ReloadEnds(f, s, S(), |table|);
    }

    method ClearChains(ghost s: State)
      requires InvOf(f)(s) && ClearedFrom(f, s, 0)(S())
      modifies this`recs, this`table, this`bigFree
      ensures |table| == |old(table)| && ClearedFrom(f, s, |table|)(S())
    {
      for b := 0 to |table|
        invariant |table| == |old(table)| && ClearedFrom(f, s, b)(S())
      {
        ClearChain(b, s);
      }
    }

    method ClearChain(b: nat, ghost s: State)
      requires InvOf(f)(s) && b < |table| && ClearedFrom(f, s, b)(S())
      modifies this`recs, this`table, this`bigFree
      ensures |table| == |old(table)| && ClearedFrom(f, s, b + 1)(S())
    {
      ghost var t := S();
      ChainBegins(f, s, t, b);
      ghost var k, i := ClearRecords(b, s);
      ChainEnds(f, s, t, S(), b, k, i);
    }

    /** The inner loop of cache_reload. */
    method ClearRecords(b: nat, ghost s: State) returns (ghost k: nat, i: nat)
      requires InvOf(f)(s) && b < |table| == |s.table|
      requires ClearingFrom(f, s, b, 0)(recs, bigFree) && ThinningFrom(s.recs, Stays(), s.table[b], 0)(table[b], 0)
      modifies this`recs, this`table, this`bigFree
      ensures |table| == |old(table)| && table == old(table)[b := table[b]] && i >= |table[b]|
      ensures ClearingFrom(f, s, b, k)(recs, bigFree) && ThinningFrom(s.recs, Stays(), s.table[b], k)(table[b], i)
    {
      k, i := 0, 0;
      while i < |table[b]|
        invariant |table| == |old(table)| && table == old(table)[b := table[b]]
        invariant ClearingFrom(f, s, b, k)(recs, bigFree) && ThinningFrom(s.recs, Stays(), s.table[b], k)(table[b], i)
        decreases |s.table[b]| - k
      {
        i := ClearRound(b, i, s, old(table), k);
        k := k + 1;
      }
    }

    method ClearRound(b: nat, i: nat, ghost s: State, ghost before: seq<seq<Id>>, ghost k: nat) returns (up: nat)
      requires InvOf(f)(s) && b < |table| == |before| == |s.table| && table == before[b := table[b]] && i < |table[b]|
      requires ClearingFrom(f, s, b, k)(recs, bigFree) && ThinningFrom(s.recs, Stays(), s.table[b], k)(table[b], i)
      modifies this`recs, this`table, this`bigFree
      ensures |table| == |before| && table == before[b := table[b]] && k < |s.table[b]|
      ensures ClearingFrom(f, s, b, k + 1)(recs, bigFree) && ThinningFrom(s.recs, Stays(), s.table[b], k + 1)(table[b], up)
    {
      ThinningOn(s.recs, Stays(), s.table[b], table[b], k, i);
      ClearNext(f, s, recs, bigFree, b, k);
      ghost var was := table;
      up := ClearAt(b, i);
      SetAgain(before, was, b, table[b]);
    }

    /** One round of the inner loop of cache_reload. */
    method ClearAt(b: nat, i: nat) returns (up: nat)
      requires b < |table| && i < |table[b]| && table[b][i] in recs
      modifies this`recs, this`table, this`bigFree
      ensures var id := old(table)[b][i];
              && recs == ClearRecs(old(recs), id) && bigFree == ClearFree(old(recs), id, old(bigFree))
              && if Stays()(old(recs)[id]) then table == old(table) && up == i + 1
                 else table == old(table)[b := RemoveAt(old(table)[b], i)] && up == i
    {
      var id := table[b][i];
      var r := recs[id];
      up := i;
      if Hosts in r.flags {
        table := table[b := RemoveAt(table[b], i)];
        recs := recs - {id};
      } else if Dhcp !in r.flags {
        table := table[b := RemoveAt(table[b], i)];
        if BigName in r.flags {
          bigFree := bigFree + 1;
        }
        recs := recs[id := r.(flags := {})];
      } else {
        up := i + 1;
      }
    }
  }
}
