/**
  The other scans of hash chains (cache_scan_free and cache_find_by_addr in
  external/dnsmasq/src/cache.c) as sweeps: each record met is dropped, kept, taken as a hit,
  or ends the sweep. What a sweep leaves behind, and why stopping early is safe.
 */
module CacheSweep {
  import opened Options
  import opened Lists
  import opened CacheState
  import opened CacheLookup
  import opened CacheInsert

  datatype Act = Discard | Keep | Hit | Stop

  /** What to do with a record, given the records freed so far. */
  type Judge = (seq<Id>, Id) -> Act

  datatype Sweep = Sweep(p: Progress, locals: seq<Id>, stopped: bool)

  /** The outcome of sweeping the records seen so far. */
  function SweepOf(recs: map<Id, Rec>, judge: Judge, seen: seq<Id>): (w: Sweep)
    requires AllIn(recs, seen)
    ensures AllIn(recs, w.p.freed)
    ensures forall id | id in w.p.freed || id in w.p.hits || id in w.locals :: id in seen
    ensures forall id | id in w.p.freed || id in w.p.hits :: id in recs && !Local(recs[id])
  {
    if seen == [] then Sweep(Progress([], [], []), [], false)
    else
      var w := SweepOf(recs, judge, seen[..|seen| - 1]);
      var id := seen[|seen| - 1];
      SweepNext(recs, judge, w, id)
  }

  function SweepNext(recs: map<Id, Rec>, judge: Judge, w: Sweep, id: Id): Sweep
    requires id in recs
  {
    var kept := w.p.(kept := w.p.kept + [id]);
    if w.stopped then w.(p := kept)
    else match judge(w.p.freed, id)
      case Discard => if Local(recs[id]) then w else w.(p := w.p.(freed := w.p.freed + [id]))
      case Keep => w.(p := kept)
      case Hit => if Local(recs[id]) then w.(p := kept, locals := w.locals + [id])
                  else w.(p := kept.(hits := w.p.hits + [id]))
      case Stop => w.(p := kept, stopped := true)
  }

  function SweptTo(s: State, b: nat, judge: Judge, i: nat): State
    requires b < |s.table| && i <= |s.table[b]| && AllIn(s.recs, s.table[b])
  {
    Partway(s, b, SweepOf(s.recs, judge, s.table[b][..i]).p, s.table[b][i..])
  }

  lemma SweepStep(recs: map<Id, Rec>, judge: Judge, chain: seq<Id>, i: nat)
    requires AllIn(recs, chain) && i < |chain|
    ensures SweepOf(recs, judge, chain[..i + 1]) == SweepNext(recs, judge, SweepOf(recs, judge, chain[..i]), chain[i])
  {
    SeenStep(chain, i);
  }

  lemma NotSwept(recs: map<Id, Rec>, judge: Judge, chain: seq<Id>, i: nat)
    requires AllIn(recs, chain) && NoDup(chain) && i < |chain|
    ensures var p := SweepOf(recs, judge, chain[..i]).p; chain[i] !in p.freed && chain[i] !in p.hits
  {
    assert chain[i] !in chain[..i];
  }

  /** During a sweep, the record at the scan position is record i of the chain, unchanged. */
  lemma MidSweep(f: Fixed, s: State, b: nat, judge: Judge, i: nat)
    requires Inv(f, s) && b < |s.table| && i < |s.table[b]| && AllIn(s.recs, s.table[b])
    requires Inv(f, SweptTo(s, b, judge, i))
    ensures var t, p, id := SweptTo(s, b, judge, i), SweepOf(s.recs, judge, s.table[b][..i]).p, s.table[b][i];
            && |p.kept| < |t.table[b]| && t.table[b][|p.kept|] == id && id in t.recs && t.recs[id] == s.recs[id]
            && (Local(s.recs[id]) || (id in t.lru && id in s.lru)) && id !in p.freed && id !in p.hits
            && (Outdated(t.recs, t.recs[id])
                <==> Outdated(s.recs, s.recs[id])
                     || (Cname in s.recs[id].flags && s.recs[id].target.Some? && s.recs[id].target.value in p.freed))
  {
    var chain, id := s.table[b], s.table[b][i];
    var p := SweepOf(s.recs, judge, chain[..i]).p;
    assert ChainOk(f, s.recs, |s.table|, chain, b);
    SeenStep(chain, i);
    NotSwept(s.recs, judge, chain, i);
    assert id in chain;
    assert forall x | x in p.freed :: x in chain && x in f.pool;
    OutdatedDuringScan(s.recs, p.freed, s.uid, id);
    PartwayDrop(s, b, p, id, chain[i + 1..]);
  }

  lemma SweepDiscard(f: Fixed, s: State, b: nat, judge: Judge, i: nat)
    requires Inv(f, s) && b < |s.table| && i < |s.table[b]| && AllIn(s.recs, s.table[b])
    requires Inv(f, SweptTo(s, b, judge, i))
    requires var w := SweepOf(s.recs, judge, s.table[b][..i]); !w.stopped && judge(w.p.freed, s.table[b][i]) == Discard
    ensures var t, p := SweptTo(s, b, judge, i), SweepOf(s.recs, judge, s.table[b][..i]).p;
            && |p.kept| < |t.table[b]| && t.table[b][|p.kept|] in t.recs
            && (Local(t.recs[t.table[b][|p.kept|]]) || t.table[b][|p.kept|] in t.lru)
            && SweptTo(s, b, judge, i + 1) == Drop(t, b, |p.kept|)
            && Inv(f, SweptTo(s, b, judge, i + 1))
  {
    var chain, id := s.table[b], s.table[b][i];
    var p := SweepOf(s.recs, judge, chain[..i]).p;
    MidSweep(f, s, b, judge, i);
    SeenStep(chain, i);
    SweepStep(s.recs, judge, chain, i);
    PartwayDrop(s, b, p, id, chain[i + 1..]);
    DropOk(f, SweptTo(s, b, judge, i), b, |p.kept|);
  }

  lemma SweepKeep(s: State, b: nat, judge: Judge, i: nat)
    requires b < |s.table| && i < |s.table[b]| && AllIn(s.recs, s.table[b])
    requires var w, id := SweepOf(s.recs, judge, s.table[b][..i]), s.table[b][i];
             w.stopped || judge(w.p.freed, id) == Keep || judge(w.p.freed, id) == Stop
             || (judge(w.p.freed, id) == Hit && Local(s.recs[id]))
    ensures SweptTo(s, b, judge, i + 1) == SweptTo(s, b, judge, i)
  {
    var chain, id := s.table[b], s.table[b][i];
    SeenStep(chain, i);
    SweepStep(s.recs, judge, chain, i);
    PartwayKeep(s, b, SweepOf(s.recs, judge, chain[..i]).p, id, chain[i + 1..]);
  }

  lemma SweepHit(f: Fixed, s: State, b: nat, judge: Judge, i: nat)
    requires Inv(f, s) && b < |s.table| && i < |s.table[b]| && AllIn(s.recs, s.table[b])
    requires Inv(f, SweptTo(s, b, judge, i))
    requires var w, id := SweepOf(s.recs, judge, s.table[b][..i]), s.table[b][i];
             !w.stopped && judge(w.p.freed, id) == Hit && !Local(s.recs[id])
    ensures var t, id := SweptTo(s, b, judge, i), s.table[b][i];
            && id in t.lru && SweptTo(s, b, judge, i + 1) == Promote(t, id) && Inv(f, SweptTo(s, b, judge, i + 1))
  {
    var chain, id := s.table[b], s.table[b][i];
    var p, rest := SweepOf(s.recs, judge, chain[..i]).p, chain[i + 1..];
    assert ChainOk(f, s.recs, |s.table|, chain, b);
    MidSweep(f, s, b, judge, i);
    SeenStep(chain, i);
    SweepStep(s.recs, judge, chain, i);
    PartwayPromote(s, b, p, id, [id] + rest);
    PartwayKeep(s, b, p.(hits := p.hits + [id]), id, rest);
    assert id in chain;
    PromoteOk(f, SweptTo(s, b, judge, i), id);
  }

  /** Once stopped, the rest of the chain stays as it is. */
  lemma {:induction false} SweepStopped(s: State, b: nat, judge: Judge, i: nat)
    requires b < |s.table| && i <= |s.table[b]| && AllIn(s.recs, s.table[b])
    requires SweepOf(s.recs, judge, s.table[b][..i]).stopped
    ensures SweptTo(s, b, judge, |s.table[b]|) == SweptTo(s, b, judge, i)
    ensures var w, v := SweepOf(s.recs, judge, s.table[b]), SweepOf(s.recs, judge, s.table[b][..i]);
            w.stopped && w.locals == v.locals && w.p.hits == v.p.hits && w.p.freed == v.p.freed
    decreases |s.table[b]| - i
  {
    var chain := s.table[b];
    if i < |chain| {
      SweepKeep(s, b, judge, i);
      SweepStep(s.recs, judge, chain, i);
      SweepStopped(s, b, judge, i + 1);
    } else {
      assert chain[..i] == chain;
    }
  }

  /** The variables of a sweep: the place in the chain, and the local records found. */
  datatype Cursor = Cursor(up: nat, locals: seq<Id>)

  function CursorAt(recs: map<Id, Rec>, judge: Judge, seen: seq<Id>): Cursor
    requires AllIn(recs, seen)
  {
    var w := SweepOf(recs, judge, seen);
    Cursor(|w.p.kept|, w.locals)
  }

  predicate CanTurn(t: State, b: nat, c: Cursor) {
    b < |t.table| && c.up < |t.table[b]|
    && var id := t.table[b][c.up];
       id in t.recs && (Local(t.recs[id]) || id in t.lru)
  }

  /** One turn of a sweep that is not to stop: the state and the variables. */
  function TurnState(t: State, b: nat, c: Cursor, act: Act): State
    requires CanTurn(t, b, c)
  {
    var id := t.table[b][c.up];
    if act == Discard then Drop(t, b, c.up) else if act == Hit && !Local(t.recs[id]) then Promote(t, id) else t
  }

  function TurnCursor(local: bool, id: Id, c: Cursor, act: Act): Cursor {
    if act == Discard then c
    else Cursor(c.up + 1, if act == Hit && local then c.locals + [id] else c.locals)
  }

  lemma CursorStep(recs: map<Id, Rec>, judge: Judge, chain: seq<Id>, i: nat)
    requires AllIn(recs, chain) && i < |chain|
    requires var w := SweepOf(recs, judge, chain[..i]); !w.stopped && judge(w.p.freed, chain[i]) != Stop
    ensures var act := judge(SweepOf(recs, judge, chain[..i]).p.freed, chain[i]);
            && CursorAt(recs, judge, chain[..i + 1])
               == TurnCursor(Local(recs[chain[i]]), chain[i], CursorAt(recs, judge, chain[..i]), act)
            && !SweepOf(recs, judge, chain[..i + 1]).stopped
  {
    SweepStep(recs, judge, chain, i);
  }

  lemma TurnOk(f: Fixed, s: State, b: nat, judge: Judge, i: nat, t: State, c: Cursor)
    requires Inv(f, s) && b < |s.table| && i < |s.table[b]| && AllIn(s.recs, s.table[b])
    requires t == SweptTo(s, b, judge, i) && Inv(f, t) && c == CursorAt(s.recs, judge, s.table[b][..i])
    requires var w := SweepOf(s.recs, judge, s.table[b][..i]); !w.stopped && judge(w.p.freed, s.table[b][i]) != Stop
    ensures CanTurn(t, b, c)
    ensures var t' := TurnState(t, b, c, judge(SweepOf(s.recs, judge, s.table[b][..i]).p.freed, s.table[b][i]));
            t' == SweptTo(s, b, judge, i + 1) && Inv(f, t')
  {
    MidSweep(f, s, b, judge, i);
    var act := judge(SweepOf(s.recs, judge, s.table[b][..i]).p.freed, s.table[b][i]);
    if act == Discard {
      SweepDiscard(f, s, b, judge, i);
    } else if act == Hit && !Local(s.recs[s.table[b][i]]) {
      SweepHit(f, s, b, judge, i);
    } else {
      SweepKeep(s, b, judge, i);
    }
  }

  /** Chain b of s has been swept up to record i, giving the state t and the variables c. */
  ghost predicate Sweeping(f: Fixed, s: State, b: nat, judge: Judge, i: nat, t: State, c: Cursor) {
    && Inv(f, s) && b < |s.table| && i <= |s.table[b]| && AllIn(s.recs, s.table[b])
    && t == SweptTo(s, b, judge, i) && c == CursorAt(s.recs, judge, s.table[b][..i])
    && Inv(f, t) && !SweepOf(s.recs, judge, s.table[b][..i]).stopped
  }

  lemma SweepBegins(f: Fixed, s: State, b: nat, judge: Judge)
    requires Inv(f, s) && b < |s.table|
    ensures Sweeping(f, s, b, judge, 0, s, Cursor(0, []))
  {
    assert ChainOk(f, s.recs, |s.table|, s.table[b], b);
    PartwayStart(s, b);
    assert s.table[b][0..] == s.table[b];
  }

  /** The record at the place of the sweep is record i, unchanged; unless the judge stops there, the sweep goes on. */
  lemma SweepGoesOn(f: Fixed, s: State, b: nat, judge: Judge, i: nat, t: State, c: Cursor)
    requires Sweeping(f, s, b, judge, i, t, c) && c.up < |t.table[b]|
    ensures i < |s.table[b]| && CanTurn(t, b, c)
    ensures var id, p := s.table[b][i], SweepOf(s.recs, judge, s.table[b][..i]).p;
            && t.table[b][c.up] == id && t.recs[id] == s.recs[id]
            && (Outdated(t.recs, t.recs[id])
                <==> Outdated(s.recs, s.recs[id])
                     || (Cname in s.recs[id].flags && s.recs[id].target.Some? && s.recs[id].target.value in p.freed))
            && (judge(p.freed, id) != Stop ==>
                  var act := judge(p.freed, id);
                  Sweeping(f, s, b, judge, i + 1, TurnState(t, b, c, act), TurnCursor(Local(s.recs[id]), id, c, act)))
  {
    MidSweep(f, s, b, judge, i);
    if judge(SweepOf(s.recs, judge, s.table[b][..i]).p.freed, s.table[b][i]) != Stop {
      TurnOk(f, s, b, judge, i, t, c);
      CursorStep(s.recs, judge, s.table[b], i);
    }
  }

  lemma WholeSweep(s: State, b: nat, judge: Judge, i: nat)
    requires b < |s.table| && i <= |s.table[b]| && AllIn(s.recs, s.table[b])
    requires var w := SweepOf(s.recs, judge, s.table[b][..i]);
             !w.stopped && (i < |s.table[b]| ==> judge(w.p.freed, s.table[b][i]) == Stop)
    ensures var w, v := SweepOf(s.recs, judge, s.table[b]), SweepOf(s.recs, judge, s.table[b][..i]);
            && Partway(s, b, w.p, []) == SweptTo(s, b, judge, i) && w.locals == v.locals
            && (w.stopped <==> i < |s.table[b]|)
  {
    var chain := s.table[b];
    assert chain[..|chain|] == chain && chain[|chain|..] == [];
    if i < |chain| {
      SweepKeep(s, b, judge, i);
      SweepStep(s.recs, judge, chain, i);
      SweepStopped(s, b, judge, i + 1);
    }
  }

  /** A sweep ends at the end of the chain or where its judge stops it; either way it is the sweep of the whole chain. */
  lemma SweepEnds(f: Fixed, s: State, b: nat, judge: Judge, i: nat, t: State, c: Cursor)
    requires Sweeping(f, s, b, judge, i, t, c)
    requires i < |s.table[b]| ==> judge(SweepOf(s.recs, judge, s.table[b][..i]).p.freed, s.table[b][i]) == Stop
    ensures var w := SweepOf(s.recs, judge, s.table[b]);
            && t == Partway(s, b, w.p, []) && c.locals == w.locals && (w.stopped <==> c.up < |t.table[b]|)
  {
    WholeSweep(s, b, judge, i);
  }

  /** A sweep does not touch the records of an unfinished insert. */
  lemma NewUntouched(f: Fixed, s: State, b: nat, judge: Judge)
    requires Inv(f, s) && b < |s.table| && AllIn(s.recs, s.table[b])
    ensures NewKept(s, Partway(s, b, SweepOf(s.recs, judge, s.table[b]).p, []))
  {
    var freed := SweepOf(s.recs, judge, s.table[b]).p.freed;
    forall x | x in s.newChain ensures x in s.recs && Refreed(s.recs, freed, s.uid)[x] == s.recs[x] {
      NewNotHashed(f, s, x);
      RefreedAt(s.recs, freed, s.uid, x);
    }
  }

  // ----- sweeping every chain by a rule about single records -----

  type Rule = Rec -> Act

  function JudgeBy(recs: map<Id, Rec>, rule: Rule): Judge {
    (freed: seq<Id>, id: Id) => if id in recs then rule(recs[id]) else Keep
  }

  // ----- why stopping early loses nothing -----

  function Filter(recs: map<Id, Rec>, p: Rec -> bool, ids: seq<Id>): (r: seq<Id>)
    requires AllIn(recs, ids)
    ensures forall id :: id in r <==> id in ids && p(recs[id])
  {
    if ids == [] then []
    else
      var id := ids[|ids| - 1];
      Filter(recs, p, ids[..|ids| - 1]) + if p(recs[id]) then [id] else []
  }

  function Not(p: Rec -> bool): Rec -> bool {
    (r: Rec) => !p(r)
  }

  function OnlyLocal(p: Rec -> bool): Rec -> bool {
    (r: Rec) => p(r) && Local(r)
  }

  function OnlyPooled(p: Rec -> bool): Rec -> bool {
    (r: Rec) => p(r) && !Local(r)
  }

  /** The rule agrees with what is to be dropped and what is to be found. */
  predicate Agrees(rule: Rule, victim: Rec -> bool, want: Rec -> bool, r: Rec) {
    match rule(r)
    case Discard => victim(r) && !want(r)
    case Hit => !victim(r) && want(r)
    case _ => !victim(r) && !want(r)
  }

  /** Where the rule stops at r, a record of the same class or a later one is of no interest. */
  predicate NothingAfter(rule: Rule, victim: Rec -> bool, want: Rec -> bool, r: Rec, later: Rec) {
    rule(r) == Stop && Class(r) <= Class(later) ==> !victim(later) && !want(later)
  }

  ghost predicate StopsSafely(rule: Rule, victim: Rec -> bool, want: Rec -> bool) {
    && (forall r: Rec :: Agrees(rule, victim, want, r))
    && (forall r: Rec, later: Rec :: NothingAfter(rule, victim, want, r, later))
  }

  lemma SweepNextFilters(recs: map<Id, Rec>, rule: Rule, victim: Rec -> bool, want: Rec -> bool, w: Sweep, id: Id)
    requires id in recs && Agrees(rule, victim, want, recs[id])
    requires w.stopped ==> !victim(recs[id]) && !want(recs[id])
    ensures var w', r := SweepNext(recs, JudgeBy(recs, rule), w, id), recs[id];
            && w'.p.kept == w.p.kept + (if Not(victim)(r) then [id] else [])
            && w'.p.freed == w.p.freed + (if OnlyPooled(victim)(r) then [id] else [])
            && w'.p.hits == w.p.hits + (if OnlyPooled(want)(r) then [id] else [])
            && w'.locals == w.locals + (if OnlyLocal(want)(r) then [id] else [])
            && (w'.stopped ==> w.stopped || rule(r) == Stop)
  {}

  /** On a chain in class order, a sweep drops exactly the victims and finds exactly what is wanted. */
  lemma {:induction false} EarlyStopLosesNothing(recs: map<Id, Rec>, rule: Rule, victim: Rec -> bool, want: Rec -> bool, chain: seq<Id>)
    requires AllIn(recs, chain) && Ordered(recs, chain) && StopsSafely(rule, victim, want)
    ensures var w := SweepOf(recs, JudgeBy(recs, rule), chain);
            && w.p.kept == Filter(recs, Not(victim), chain)
            && w.p.freed == Filter(recs, OnlyPooled(victim), chain)
            && w.p.hits == Filter(recs, OnlyPooled(want), chain)
            && w.locals == Filter(recs, OnlyLocal(want), chain)
            && (w.stopped ==> exists i | 0 <= i < |chain| :: rule(recs[chain[i]]) == Stop)
  {
    if chain != [] {
      var n := |chain| - 1;
      EarlyStopLosesNothing(recs, rule, victim, want, chain[..n]);
      var w := SweepOf(recs, JudgeBy(recs, rule), chain[..n]);
      var r := recs[chain[n]];
      if w.stopped {
        var i :| 0 <= i < n && rule(recs[chain[..n][i]]) == Stop;
        assert Class(recs[chain[i]]) <= Class(r);
        assert NothingAfter(rule, victim, want, recs[chain[i]], r);
      }
      assert Agrees(rule, victim, want, r);
      SweepNextFilters(recs, rule, victim, want, w, chain[n]);
    }
  }

  // ----- the rules of the source -----

  /** cache_scan_free over the whole table: expired records, and pooled reverse records of an address. */
  function Stale(addr: seq<int>, now: int, flags: set<Flag>): Rec -> bool {
    (r: Rec) =>
      Expired(r, now)
      || (!Local(r) && Reverse in flags && Reverse in r.flags && flags * r.flags * {IPv4, IPv6} != {} && r.addr == addr)
  }

  function Nothing(): Rec -> bool {
    (r: Rec) => false
  }

  function StaleRule(addr: seq<int>, now: int, flags: set<Flag>): Rule {
    (r: Rec) => if Class(r) == 2 then Stop else if Stale(addr, now, flags)(r) then Discard else Keep
  }

  /** cache_find_by_addr: a live reverse record of the address. */
  function Names(addr: seq<int>, now: int, prot: set<Flag>): Rec -> bool {
    (r: Rec) => Reverse in r.flags && !Expired(r, now) && r.flags * prot != {} && r.addr == addr
  }

  function ExpiredName(now: int): Rec -> bool {
    (r: Rec) => Reverse in r.flags && Expired(r, now)
  }

  function AddrRule(addr: seq<int>, now: int, prot: set<Flag>): Rule {
    (r: Rec) => if Reverse !in r.flags then Stop else if Expired(r, now) then Discard
                else if Names(addr, now, prot)(r) then Hit else Keep
  }

  lemma RulesStopSafely(addr: seq<int>, now: int, flags: set<Flag>)
    ensures StopsSafely(StaleRule(addr, now, flags), Stale(addr, now, flags), Nothing())
    ensures StopsSafely(AddrRule(addr, now, flags), ExpiredName(now), Names(addr, now, flags))
  {}

  // ----- sweeping every chain -----

  /** Chain c of s as it is in t, when the first n chains have been swept. */
  predicate SweptAt(s: State, t: State, n: nat, victim: Rec -> bool, c: nat)
    requires c < |s.table| == |t.table| && t.recs.Keys == s.recs.Keys
  {
    && AllIn(s.recs, s.table[c])
    && t.table[c] == (if c < n then Filter(s.recs, Not(victim), s.table[c]) else s.table[c])
    && (n <= c ==> forall id | id in s.table[c] :: t.recs[id] == s.recs[id])
  }

  /** From the first n chains of s exactly the victims are gone in t; no other record has changed. */
  predicate SweptBelow(s: State, t: State, n: nat, victim: Rec -> bool) {
    ChainsSwept(s, t, n, victim) && NewKept(s, t)
  }

  predicate Spared(victim: Rec -> bool, r: Rec) {
    !victim(r) || Local(r)
  }

  /** A serial number is new only if the record was in a chain and pooled. */
  predicate UidKept(s: State, t: State, id: Id)
    requires id in s.recs && id in t.recs
  {
    || t.recs[id].uid == s.recs[id].uid
    || (t.recs[id].uid >= s.uid && !Local(s.recs[id]) && exists c | 0 <= c < |s.table| :: id in s.table[c])
  }

  predicate ChainsSwept(s: State, t: State, n: nat, victim: Rec -> bool) {
    && |t.table| == |s.table| && t.recs.Keys == s.recs.Keys
    && s.uid <= t.uid && (forall id | id in s.recs :: UidKept(s, t, id))
    && (forall c | 0 <= c < |s.table| :: SweptAt(s, t, n, victim, c))
    && (forall id | id in s.recs && Spared(victim, s.recs[id]) :: t.recs[id] == s.recs[id])
  }

  lemma {:induction false} FilterLocal(recs: map<Id, Rec>, recs': map<Id, Rec>, p: Rec -> bool, ids: seq<Id>)
    requires AllIn(recs, ids) && AllIn(recs', ids) && forall id | id in ids :: recs[id] == recs'[id]
    ensures Filter(recs, p, ids) == Filter(recs', p, ids)
  {
    if ids != [] {
      FilterLocal(recs, recs', p, ids[..|ids| - 1]);
    }
  }

  lemma SweptNone(f: Fixed, s: State, victim: Rec -> bool)
    requires Inv(f, s)
    ensures SweptBelow(s, s, 0, victim)
  {
    forall x | x in s.newChain ensures x in s.recs {
      NewNotHashed(f, s, x);
    }
    forall c | 0 <= c < |s.table| ensures SweptAt(s, s, 0, victim, c) {
      assert ChainOk(f, s.recs, |s.table|, s.table[c], c);
    }
  }

  /** What the sweep of chain n finds and frees, in terms of the records at the start. */
  lemma NextOutcome(f: Fixed, s: State, t: State, n: nat, rule: Rule, victim: Rec -> bool, want: Rec -> bool)
    requires Inv(f, s) && SweptBelow(s, t, n, victim) && n < |s.table| && StopsSafely(rule, victim, want)
    ensures AllIn(s.recs, s.table[n]) && AllIn(t.recs, t.table[n]) && t.table[n] == s.table[n]
    ensures var w := SweepOf(t.recs, JudgeBy(t.recs, rule), t.table[n]);
            && w.p.kept == Filter(s.recs, Not(victim), s.table[n])
            && w.p.freed == Filter(s.recs, OnlyPooled(victim), s.table[n])
            && w.p.hits == Filter(s.recs, OnlyPooled(want), s.table[n])
            && w.locals == Filter(s.recs, OnlyLocal(want), s.table[n])
  {
    var chain := s.table[n];
    assert SweptAt(s, t, n, victim, n);
    assert ChainOk(f, s.recs, |s.table|, chain, n);
    assert Ordered(t.recs, chain);
    EarlyStopLosesNothing(t.recs, rule, victim, want, chain);
    FilterLocal(s.recs, t.recs, Not(victim), chain);
    FilterLocal(s.recs, t.recs, OnlyPooled(victim), chain);
    FilterLocal(s.recs, t.recs, OnlyPooled(want), chain);
    FilterLocal(s.recs, t.recs, OnlyLocal(want), chain);
  }

  /** No record is in two chains. */
  predicate Disjoint(table: seq<seq<Id>>) {
    forall b, c, id | 0 <= b < |table| && 0 <= c < |table| && id in table[b] && id in table[c] :: b == c
  }

  lemma ChainsDisjoint(f: Fixed, s: State)
    requires Inv(f, s)
    ensures Disjoint(s.table)
  {
    forall b, c, id | 0 <= b < |s.table| && 0 <= c < |s.table| && id in s.table[b] && id in s.table[c] ensures b == c {
      assert ChainOk(f, s.recs, |s.table|, s.table[b], b) && ChainOk(f, s.recs, |s.table|, s.table[c], c);
    }
  }

  lemma SweptNextAt(s: State, t: State, n: nat, victim: Rec -> bool, p: Progress, c: nat)
    requires Disjoint(s.table) && n < |s.table| && c < |s.table| == |t.table| && t.recs.Keys == s.recs.Keys
    requires SweptAt(s, t, n, victim, c) && AllIn(s.recs, s.table[n]) && AllIn(t.recs, p.freed)
    requires p.kept == Filter(s.recs, Not(victim), s.table[n]) && p.freed == Filter(s.recs, OnlyPooled(victim), s.table[n])
    ensures SweptAt(s, Partway(t, n, p, []), n + 1, victim, c)
  {
    var u := Partway(t, n, p, []);
    assert p.kept + [] == p.kept;
    if n + 1 <= c {
      forall id | id in s.table[c] ensures u.recs[id] == s.recs[id] {
        assert id !in s.table[n];
        RefreedAt(t.recs, p.freed, t.uid, id);
      }
    }
  }

  lemma SweptNewKept(f: Fixed, s: State, t: State, n: nat, p: Progress)
    requires Inv(f, s) && NewKept(s, t) && n < |s.table| == |t.table| && AllIn(t.recs, p.freed)
    requires forall id | id in p.freed :: id in s.table[n]
    ensures NewKept(s, Partway(t, n, p, []))
  {
    forall x | x in s.newChain ensures x in s.recs && x in t.recs && Partway(t, n, p, []).recs[x] == s.recs[x] {
      NewNotHashed(f, s, x);
      RefreedAt(t.recs, p.freed, t.uid, x);
    }
  }

  lemma SweptNext(s: State, t: State, n: nat, victim: Rec -> bool, p: Progress)
    requires Disjoint(s.table) && ChainsSwept(s, t, n, victim) && n < |s.table| && AllIn(s.recs, s.table[n]) && AllIn(t.recs, p.freed)
    requires p.kept == Filter(s.recs, Not(victim), s.table[n]) && p.freed == Filter(s.recs, OnlyPooled(victim), s.table[n])
    ensures ChainsSwept(s, Partway(t, n, p, []), n + 1, victim)
  {
    var u, m := Partway(t, n, p, []), n + 1;
    forall c | 0 <= c < |s.table| ensures SweptAt(s, u, m, victim, c) {
      SweptNextAt(s, t, n, victim, p, c);
    }
    forall id | id in s.recs
      ensures UidKept(s, u, id) && (Spared(victim, s.recs[id]) ==> u.recs[id] == s.recs[id])
    {
      assert UidKept(s, t, id);
      RefreedAt(t.recs, p.freed, t.uid, id);
    }
  }

  /** Sweeping chain n adds it to the chains swept. */
  lemma BucketDone(f: Fixed, s: State, t: State, n: nat, rule: Rule, victim: Rec -> bool, want: Rec -> bool)
    requires Inv(f, s) && SweptBelow(s, t, n, victim) && n < |s.table| && StopsSafely(rule, victim, want)
    ensures n < |t.table| && AllIn(t.recs, t.table[n])
    ensures SweptBelow(s, Partway(t, n, SweepOf(t.recs, JudgeBy(t.recs, rule), t.table[n]).p, []), n + 1, victim)
  {
    NextOutcome(f, s, t, n, rule, victim, want);
    var p := SweepOf(t.recs, JudgeBy(t.recs, rule), t.table[n]).p;
    ChainsDisjoint(f, s);
    SweptNext(s, t, n, victim, p);
    SweptNewKept(f, s, t, n, p);
  }

  /** The first n chains of s have been swept, giving the state t. */
  ghost predicate Progressing(f: Fixed, s: State, t: State, n: nat, victim: Rec -> bool) {
    Inv(f, s) && Inv(f, t) && n <= |s.table| == |t.table| && SweptBelow(s, t, n, victim)
  }

  lemma ProgressBegins(f: Fixed, s: State, victim: Rec -> bool)
    requires Inv(f, s)
    ensures Progressing(f, s, s, 0, victim)
  {
    SweptNone(f, s, victim);
  }

  lemma ProgressGoesOn(f: Fixed, s: State, t: State, n: nat, rule: Rule, victim: Rec -> bool, want: Rec -> bool, u: State)
    requires Progressing(f, s, t, n, victim) && n < |t.table| && StopsSafely(rule, victim, want)
    requires AllIn(t.recs, t.table[n]) && Inv(f, u) && u == Partway(t, n, SweepOf(t.recs, JudgeBy(t.recs, rule), t.table[n]).p, [])
    ensures Progressing(f, s, u, n + 1, victim)
  {
    BucketDone(f, s, t, n, rule, victim, want);
  }

  // ----- what a search of every chain finds -----

  predicate InChains(s: State, n: nat, id: Id)
    requires n <= |s.table|
  {
    exists c | 0 <= c < n :: id in s.table[c]
  }

  /** The wanted records of the first n chains, each once: the local ones and the pooled ones. */
  ghost predicate FoundBelow(s: State, n: nat, want: Rec -> bool, locals: seq<Id>, hits: seq<Id>) {
    && n <= |s.table| && NoDup(locals) && NoDup(hits)
    && (forall id :: id in locals <==> id in s.recs && InChains(s, n, id) && OnlyLocal(want)(s.recs[id]))
    && (forall id :: id in hits <==> id in s.recs && InChains(s, n, id) && OnlyPooled(want)(s.recs[id]))
  }

  predicate Leads(hits: seq<Id>, lru: seq<Id>) {
    |hits| <= |lru| && lru[..|hits|] == Backwards(hits)
  }

  lemma {:induction false} FilterNoDup(recs: map<Id, Rec>, p: Rec -> bool, ids: seq<Id>)
    requires AllIn(recs, ids) && NoDup(ids)
    ensures NoDup(Filter(recs, p, ids))
  {
    if ids != [] {
      FilterNoDup(recs, p, ids[..|ids| - 1]);
    }
  }

  lemma {:induction false} BackwardsConcat(p: seq<Id>, q: seq<Id>)
    ensures Backwards(p + q) == Backwards(q) + Backwards(p)
  {
    if q == [] {
      assert p + q == p;
    } else {
      var n := |q| - 1;
      assert (p + q)[..|p + q| - 1] == p + q[..n];
      BackwardsConcat(p, q[..n]);
    }
  }

  lemma LeadNext(lru: seq<Id>, hits: seq<Id>, more: seq<Id>, freed: seq<Id>)
    requires Leads(hits, lru) && forall id | id in hits :: id !in more && id !in freed
    ensures Leads(hits + more, LruAfter(lru, more, freed))
  {
    var xs, rest := Elems(more) + Elems(freed), lru[|hits|..];
    assert lru == Backwards(hits) + rest;
    MinusAppend(Backwards(hits), rest, xs);
    MinusNothing(Backwards(hits), xs);
    BackwardsConcat(hits, more);
  }

  lemma FoundNext(f: Fixed, s: State, n: nat, want: Rec -> bool, locals: seq<Id>, hits: seq<Id>)
    requires Inv(f, s) && n < |s.table| && FoundBelow(s, n, want, locals, hits) && AllIn(s.recs, s.table[n])
    ensures FoundBelow(s, n + 1, want, locals + Filter(s.recs, OnlyLocal(want), s.table[n]),
                       hits + Filter(s.recs, OnlyPooled(want), s.table[n]))
    ensures forall id | id in hits :: id !in s.table[n]
  {
    var chain := s.table[n];
    assert ChainOk(f, s.recs, |s.table|, chain, n);
    forall id | InChains(s, n, id) ensures id !in chain {
      var c :| 0 <= c < n && id in s.table[c];
      assert ChainOk(f, s.recs, |s.table|, s.table[c], c);
    }
    FilterNoDup(s.recs, OnlyLocal(want), chain);
    FilterNoDup(s.recs, OnlyPooled(want), chain);
    NoDupConcat(locals, Filter(s.recs, OnlyLocal(want), chain));
    NoDupConcat(hits, Filter(s.recs, OnlyPooled(want), chain));
    forall id ensures InChains(s, n + 1, id) <==> InChains(s, n, id) || id in chain {}
  }

  /** One more chain searched: what it adds, and where its hits go. */
  lemma BucketFound(f: Fixed, s: State, t: State, n: nat, rule: Rule, victim: Rec -> bool, want: Rec -> bool,
                    locals: seq<Id>, hits: seq<Id>)
    requires Progressing(f, s, t, n, victim) && n < |s.table| && StopsSafely(rule, victim, want)
    requires Finding(s, t, n, want, locals, hits)
    ensures AllIn(t.recs, t.table[n])
    ensures var w := SweepOf(t.recs, JudgeBy(t.recs, rule), t.table[n]);
            Finding(s, Partway(t, n, w.p, []), n + 1, want, locals + w.locals, hits + w.p.hits)
  {
    NextOutcome(f, s, t, n, rule, victim, want);
    FoundNext(f, s, n, want, locals, hits);
    var w := SweepOf(t.recs, JudgeBy(t.recs, rule), t.table[n]);
    LeadNext(t.lru, hits, w.p.hits, w.p.freed);
  }

  /** The wanted records of the first n chains of s have been found, and the pooled ones lead the LRU list of t. */
  ghost predicate Finding(s: State, t: State, n: nat, want: Rec -> bool, locals: seq<Id>, hits: seq<Id>) {
    FoundBelow(s, n, want, locals, hits) && Leads(hits, t.lru)
  }

  /** After a search by address, every pooled record that answers it is among the hits. */
  lemma NothingBehind(f: Fixed, s: State, t: State, addr: seq<int>, now: int, prot: set<Flag>, locals: seq<Id>, hits: seq<Id>, id: Id)
    requires Inv(f, s) && Inv(f, t) && SweptBelow(s, t, |s.table|, ExpiredName(now))
    requires FoundBelow(s, |s.table|, Names(addr, now, prot), locals, hits)
    requires id in t.lru && id in t.recs
    requires var r := t.recs[id]; Reverse in r.flags && r.flags * prot != {} && r.addr == addr
    ensures id in hits
  {
    assert Hashed(f, t, id) && id in Elems(t.lru);
    var c := Bucket(f.mix, |t.table|, t.recs[id].name);
    assert SweptAt(s, t, |s.table|, ExpiredName(now), c);
    assert id in s.table[c] && InChains(s, |s.table|, id);
    assert t.recs[id] == s.recs[id];
  }

  // ----- the answers to a search by address -----

  /** What is checked before an answer is given. */
  function HasAddr(addr: seq<int>, prot: set<Flag>): Rec -> bool {
    (r: Rec) => Reverse in r.flags && r.flags * prot != {} && r.addr == addr
  }

  /** A search by address: expired reverse records are gone, and those that are wanted are at hand. */
  ghost predicate AddrFound(f: Fixed, s: State, t: State, addr: seq<int>, now: int, prot: set<Flag>, locals: seq<Id>, hits: seq<Id>,
                            links: map<Id, Option<Id>>)
  {
    && SweptBelow(s, t, |s.table|, ExpiredName(now)) && FoundBelow(s, |s.table|, Names(addr, now, prot), locals, hits)
    && Leads(hits, t.lru) && LinkedIn(t.lru, links, locals)
  }

  /** Local records that were found are not on the LRU list; all that were found are still what was asked for. */
  lemma FoundLocals(f: Fixed, s: State, t: State, addr: seq<int>, now: int, prot: set<Flag>, locals: seq<Id>, hits: seq<Id>)
    requires Inv(f, s) && Inv(f, t) && SweptBelow(s, t, |s.table|, ExpiredName(now))
    requires FoundBelow(s, |s.table|, Names(addr, now, prot), locals, hits)
    ensures NoDup(locals) && forall id | id in locals :: id !in t.lru
    ensures forall id | id in locals || id in hits :: id in t.recs && HasAddr(addr, prot)(t.recs[id])
  {
    forall id | id in locals || id in hits ensures id in t.recs && t.recs[id] == s.recs[id] && HasAddr(addr, prot)(t.recs[id]) {
      assert Spared(ExpiredName(now), s.recs[id]);
    }
    forall id | id in locals ensures id !in t.lru {
      assert id in t.lru ==> id in Elems(t.lru);
      assert Local(t.recs[id]);
    }
  }

  /** Going from answer to answer gives the local records found, then the pooled ones, then nothing. */
  lemma AddrAnswers(f: Fixed, s: State, t: State, addr: seq<int>, now: int, prot: set<Flag>, locals: seq<Id>, hits: seq<Id>,
                    links: map<Id, Option<Id>>)
    requires Inv(f, s) && Inv(f, t) && AddrFound(f, s, t, addr, now, prot, locals, hits, links)
    ensures var all, want := locals + Backwards(hits), HasAddr(addr, prot);
            && CheckedBy(t.recs, FirstOf(t.lru, locals), want) == (if 0 < |all| then Some(all[0]) else None)
            && Follows(t.recs, t.lru, links, want, all)
  {
    FoundLocals(f, s, t, addr, now, prot, locals, hits);
    assert |t.lru| > 0 ==> NoDup(t.lru) by {
      if |t.lru| > 0 {
        PooledKnown(f, t, 0);
      }
    }
    forall j | |hits| <= j < |t.lru| ensures t.lru[j] in t.recs && !HasAddr(addr, prot)(t.recs[t.lru[j]]) {
      BehindHits(f, s, t, addr, now, prot, locals, hits, j);
    }
    FollowingAll(t.recs, HasAddr(addr, prot), t.lru, links, locals, Backwards(hits));
  }

  lemma BehindHits(f: Fixed, s: State, t: State, addr: seq<int>, now: int, prot: set<Flag>, locals: seq<Id>, hits: seq<Id>, j: nat)
    requires Inv(f, s) && Inv(f, t) && SweptBelow(s, t, |s.table|, ExpiredName(now)) && Leads(hits, t.lru)
    requires FoundBelow(s, |s.table|, Names(addr, now, prot), locals, hits) && |hits| <= j < |t.lru|
    ensures t.lru[j] in t.recs && !HasAddr(addr, prot)(t.recs[t.lru[j]])
  {
    PooledKnown(f, t, j);
    NotAmongFirst(t.lru, hits, j);
    if HasAddr(addr, prot)(t.recs[t.lru[j]]) {
      NothingBehind(f, s, t, addr, now, prot, locals, hits, t.lru[j]);
    }
  }

  lemma PooledKnown(f: Fixed, t: State, j: nat)
    requires Inv(f, t) && j < |t.lru|
    ensures t.lru[j] in t.recs && NoDup(t.lru)
  {
    assert t.lru[j] in Elems(t.lru);
  }

  lemma NotAmongFirst(lru: seq<Id>, hits: seq<Id>, j: nat)
    requires NoDup(lru) && Leads(hits, lru) && |hits| <= j < |lru|
    ensures lru[j] !in hits
  {
    assert lru[j] in hits <==> lru[j] in Backwards(hits);
    forall i | 0 <= i < |hits| ensures Backwards(hits)[i] != lru[j] {
      assert lru[..|hits|][i] == lru[i];
    }
  }

  // ----- sweeping the chain of a name -----

  /** A forward record of the name that an insert with these flags replaces, or must not touch. */
  predicate Replaces(r: Rec, name: string, flags: set<Flag>) {
    && Forward in r.flags && SameName(r.name, name)
    && (flags * r.flags * {IPv4, IPv6} != {} || Cname in r.flags || Cname in flags)
  }

  /** cache_scan_free for a name. */
  function NameJudge(recs: map<Id, Rec>, name: string, now: int, flags: set<Flag>): Judge {
    (freed: seq<Id>, id: Id) =>
      if id !in recs then Keep
      else if Dead(recs, now, freed, id) then Discard
      else if !Replaces(recs[id], name, flags) then Keep
      else if Local(recs[id]) then Stop else Discard
  }

  /** The judgement in terms of the records as they are when the sweep comes to this one. */
  function NameAct(recs: map<Id, Rec>, r: Rec, name: string, now: int, flags: set<Flag>): Act {
    if Expired(r, now) || Outdated(recs, r) then Discard
    else if !Replaces(r, name, flags) then Keep
    else if Local(r) then Stop else Discard
  }

  lemma NameActIs(recs: map<Id, Rec>, later: map<Id, Rec>, freed: seq<Id>, id: Id, name: string, now: int, flags: set<Flag>)
    requires id in recs && id in later && later[id] == recs[id]
    requires Outdated(later, later[id])
             <==> Outdated(recs, recs[id]) || (Cname in recs[id].flags && recs[id].target.Some? && recs[id].target.value in freed)
    ensures NameJudge(recs, name, now, flags)(freed, id) == NameAct(later, later[id], name, now, flags)
  {}

  /** What the sweep has freed, and whether it has stopped, when it comes to record i. */
  function SweptBefore(recs: map<Id, Rec>, name: string, now: int, flags: set<Flag>, chain: seq<Id>, i: nat): Sweep
    requires AllIn(recs, chain) && i <= |chain|
  {
    SweepOf(recs, NameJudge(recs, name, now, flags), chain[..i])
  }

  /** A record that stops the sweep: alive, to be replaced, but of a hosts file or a lease. */
  predicate StopsAt(recs: map<Id, Rec>, name: string, now: int, flags: set<Flag>, chain: seq<Id>, i: nat)
    requires AllIn(recs, chain) && i < |chain|
  {
    var w, id := SweptBefore(recs, name, now, flags, chain, i), chain[i];
    !w.stopped && !Dead(recs, now, w.p.freed, id) && Replaces(recs[id], name, flags) && Local(recs[id])
  }

  /** A record that the sweep drops: dead by then, or to be replaced. */
  predicate DropsAt(recs: map<Id, Rec>, name: string, now: int, flags: set<Flag>, chain: seq<Id>, i: nat)
    requires AllIn(recs, chain) && i < |chain|
  {
    var w, id := SweptBefore(recs, name, now, flags, chain, i), chain[i];
    !w.stopped && (Dead(recs, now, w.p.freed, id) || (Replaces(recs[id], name, flags) && !Local(recs[id])))
  }

  lemma {:induction false} KeptSeen(recs: map<Id, Rec>, judge: Judge, seen: seq<Id>)
    requires AllIn(recs, seen)
    ensures forall id | id in SweepOf(recs, judge, seen).p.kept :: id in seen
  {
    if seen != [] {
      KeptSeen(recs, judge, seen[..|seen| - 1]);
    }
  }

  /** The fate of record i, seen from the end of the chain. */
  lemma {:induction false} DropsAtEnd(recs: map<Id, Rec>, name: string, now: int, flags: set<Flag>, chain: seq<Id>, i: nat)
    requires AllIn(recs, chain) && NoDup(chain) && i < |chain|
    ensures var w := SweepOf(recs, NameJudge(recs, name, now, flags), chain);
            && (chain[i] !in w.p.kept <==> DropsAt(recs, name, now, flags, chain, i))
            && (chain[i] in w.p.freed <==> DropsAt(recs, name, now, flags, chain, i) && !Local(recs[chain[i]]))
  {
    var n := |chain| - 1;
    var front, judge := chain[..n], NameJudge(recs, name, now, flags);
    KeptSeen(recs, judge, front);
    assert chain[n] !in front;
    if i < n {
      assert front[..i] == chain[..i] && front[i] == chain[i];
      DropsAtEnd(recs, name, now, flags, front, i);
    }
  }

  lemma StopsLast(recs: map<Id, Rec>, name: string, now: int, flags: set<Flag>, chain: seq<Id>)
    requires AllIn(recs, chain) && chain != []
    ensures var n, judge := |chain| - 1, NameJudge(recs, name, now, flags);
            SweepOf(recs, judge, chain).stopped <==> SweepOf(recs, judge, chain[..n]).stopped || StopsAt(recs, name, now, flags, chain, n)
  {}

  lemma {:induction false} StopsSomewhere(recs: map<Id, Rec>, name: string, now: int, flags: set<Flag>, chain: seq<Id>, m: nat)
    requires AllIn(recs, chain) && m <= |chain|
    ensures SweptBefore(recs, name, now, flags, chain, m).stopped
            <==> exists i | 0 <= i < m :: StopsAt(recs, name, now, flags, chain, i)
  {
    if m > 0 {
      var n := m - 1;
      StopsSomewhere(recs, name, now, flags, chain, n);
      StopsLast(recs, name, now, flags, chain[..m]);
      assert chain[..m][..n] == chain[..n];
      assert StopsAt(recs, name, now, flags, chain[..m], n) <==> StopsAt(recs, name, now, flags, chain, n);
    }
  }

  /**
    The sweep drops a record if and only if it is dead when its turn comes or is to be replaced, and the sweep has not
    stopped before; of the dropped ones the pooled are freed. It stops exactly at a record that must not be touched.
   */
  lemma NameSweepExact(recs: map<Id, Rec>, name: string, now: int, flags: set<Flag>, chain: seq<Id>)
    requires AllIn(recs, chain) && NoDup(chain)
    ensures var w := SweepOf(recs, NameJudge(recs, name, now, flags), chain);
            && (forall i | 0 <= i < |chain| :: chain[i] !in w.p.kept <==> DropsAt(recs, name, now, flags, chain, i))
            && (forall i | 0 <= i < |chain| ::
                  chain[i] in w.p.freed <==> DropsAt(recs, name, now, flags, chain, i) && !Local(recs[chain[i]]))
            && (forall id | id in w.p.kept :: id in chain)
            && (w.stopped <==> exists i | 0 <= i < |chain| :: StopsAt(recs, name, now, flags, chain, i))
  {
    var w := SweepOf(recs, NameJudge(recs, name, now, flags), chain);
    KeptSeen(recs, NameJudge(recs, name, now, flags), chain);
    StopsSomewhere(recs, name, now, flags, chain, |chain|);
    assert chain[..|chain|] == chain;
    forall i | 0 <= i < |chain|
      ensures chain[i] !in w.p.kept <==> DropsAt(recs, name, now, flags, chain, i)
      ensures chain[i] in w.p.freed <==> DropsAt(recs, name, now, flags, chain, i) && !Local(recs[chain[i]])
    {
      DropsAtEnd(recs, name, now, flags, chain, i);
    }
  }

  // ----- what an insert relies on -----

  /** No record in use on the LRU list has expired. */
  predicate NoneExpired(s: State, now: int) {
    forall id | id in s.lru && id in s.recs && InUse(s.recs[id]) :: !Expired(s.recs[id], now)
  }
}
