/**
  The table of queries sent to other name servers (external/dnsmasq/src/forward.c): records, the random
  sockets they share by counting references, and how replies are matched and counted.
 */
module ForwardTable {
  import opened Options

  const ALL_ONES: nat := 0xFFFF_FFFF
  const RANDOM_SOCKS := 64
  const MAX_REFS: nat := 0xFFFF
  const TIMEOUT := 10
  const FORWARD_TEST := 50
  const FORWARD_TIME := 10

  datatype Family = Inet | Inet6

  /** A record is free if it has been sent to nobody. */
  datatype Rec = Rec(sentto: Option<nat>, rfd4: Option<nat>, rfd6: Option<nat>, source: int, origId: nat, newId: nat,
                     crc: nat, forwardall: nat, time: int)

  datatype Sock = Sock(refs: nat, family: Family)

  predicate Active(r: Rec) {
    r.sentto.Some?
  }

  // ----- counting references -----

  function RefsOf(r: Rec, s: nat): nat {
    (if r.rfd4 == Some(s) then 1 else 0) + (if r.rfd6 == Some(s) then 1 else 0)
  }

  function Refs(recs: seq<Rec>, s: nat): nat {
    if recs == [] then 0 else Refs(recs[..|recs| - 1], s) + RefsOf(recs[|recs| - 1], s)
  }

  lemma {:induction false} RefsUpdate(recs: seq<Rec>, i: nat, r: Rec, s: nat)
    requires i < |recs|
    ensures Refs(recs[i := r], s) + RefsOf(recs[i], s) == Refs(recs, s) + RefsOf(r, s)
  {
    var n := |recs| - 1;
    if i == n {
      assert recs[i := r][..n] == recs[..n];
    } else {
      assert recs[i := r][..n] == recs[..n][i := r];
      RefsUpdate(recs[..n], i, r, s);
    }
  }

  lemma {:induction false} RefsHead(recs: seq<Rec>, r: Rec, s: nat)
    ensures Refs([r] + recs, s) == RefsOf(r, s) + Refs(recs, s)
  {
    if recs == [] {
      assert [r] + recs == [r] && [r][..0] == [];
    } else {
      var n := |recs| - 1;
      assert ([r] + recs)[..|recs|] == [r] + recs[..n];
      RefsHead(recs[..n], r, s);
    }
  }

  lemma {:induction false} RefsAtLeast(recs: seq<Rec>, i: nat, s: nat)
    requires i < |recs|
    ensures Refs(recs, s) >= RefsOf(recs[i], s)
  {
    if i < |recs| - 1 {
      RefsAtLeast(recs[..|recs| - 1], i, s);
    }
  }

  // ----- the invariant -----

  predicate SockOk(socks: seq<Sock>, s: Option<nat>, family: Family) {
    s.Some? ==> s.value < |socks| && socks[s.value].refs > 0 && socks[s.value].family == family
  }

  /** A record uses sockets of the right family; a free record uses none; an active one waits for 0 or for counted replies. */
  predicate RecOk(socks: seq<Sock>, r: Rec) {
    && SockOk(socks, r.rfd4, Inet) && SockOk(socks, r.rfd6, Inet6)
    && (!Active(r) ==> r.rfd4.None? && r.rfd6.None?)
    && (Active(r) ==> r.forwardall != 1)
  }

  /** The count of each socket is the number of records that use it. */
  predicate CountsOk(recs: seq<Rec>, socks: seq<Sock>) {
    |socks| == RANDOM_SOCKS && forall s | 0 <= s < |socks| :: socks[s].refs == Refs(recs, s) && socks[s].refs <= MAX_REFS
  }

  /** No two active records of a known question have the same id and question. */
  predicate IdsOk(recs: seq<Rec>) {
    forall i, j | 0 <= i < j < |recs| :: Active(recs[i]) && Active(recs[j]) && recs[i].crc != ALL_ONES ==>
                                           recs[i].newId != recs[j].newId || recs[i].crc != recs[j].crc
  }

  predicate Inv(recs: seq<Rec>, socks: seq<Sock>, ftabsize: nat) {
    && CountsOk(recs, socks) && IdsOk(recs) && |recs| <= ftabsize + 1
    && forall i | 0 <= i < |recs| :: RecOk(socks, recs[i])
  }

  // ----- freeing a record -----

  function Dropped(socks: seq<Sock>, s: Option<nat>): (r: seq<Sock>)
    requires s.Some? ==> s.value < |socks| && socks[s.value].refs > 0
    ensures |r| == |socks|
  {
    if s.None? then socks else socks[s.value := socks[s.value].(refs := socks[s.value].refs - 1)]
  }

  function FreedRec(r: Rec): Rec {
    r.(rfd4 := None, rfd6 := None, sentto := None)
  }

  /** The sockets after free_frec. */
  function FreedSocks(socks: seq<Sock>, r: Rec): (f: seq<Sock>)
    requires SockOk(socks, r.rfd4, Inet) && SockOk(socks, r.rfd6, Inet6)
    ensures |f| == |socks|
  {
    Dropped(Dropped(socks, r.rfd4), r.rfd6)
  }

  lemma FreedCounts(recs: seq<Rec>, socks: seq<Sock>, i: nat)
    requires CountsOk(recs, socks) && i < |recs| && SockOk(socks, recs[i].rfd4, Inet) && SockOk(socks, recs[i].rfd6, Inet6)
    ensures CountsOk(recs[i := FreedRec(recs[i])], FreedSocks(socks, recs[i]))
  {
    var r, f := recs[i], FreedSocks(socks, recs[i]);
    forall s | 0 <= s < |socks| ensures f[s].refs == Refs(recs[i := FreedRec(r)], s) && f[s].refs <= MAX_REFS {
      RefsUpdate(recs, i, FreedRec(r), s);
      RefsAtLeast(recs, i, s);
    }
  }

  lemma FreeKeeps(recs: seq<Rec>, socks: seq<Sock>, ftabsize: nat, i: nat)
    requires Inv(recs, socks, ftabsize) && i < |recs|
    ensures Inv(recs[i := FreedRec(recs[i])], FreedSocks(socks, recs[i]), ftabsize)
  {
    FreedCounts(recs, socks, i);
    assert RecOk(socks, recs[i]);
    var recs' := recs[i := FreedRec(recs[i])];
    forall k | 0 <= k < |recs'| ensures RecOk(FreedSocks(socks, recs[i]), recs'[k]) {
      if k != i {
        FreedKeepsOther(recs, socks, i, k);
      }
    }
  }

  // ----- a record while it is being sent -----

  /** No other active record has the id and the question of record i. */
  predicate NoClash(recs: seq<Rec>, i: nat)
    requires i < |recs|
  {
    recs[i].crc != ALL_ONES ==>
      forall k | 0 <= k < |recs| && k != i && Active(recs[k]) :: recs[k].newId != recs[i].newId || recs[k].crc != recs[i].crc
  }

  /** The invariant, with record i in the making: it may already have sockets. */
  predicate Making(recs: seq<Rec>, socks: seq<Sock>, ftabsize: nat, i: nat) {
    && i < |recs| && CountsOk(recs, socks) && IdsOk(recs) && |recs| <= ftabsize + 1 && NoClash(recs, i)
    && (forall k | 0 <= k < |recs| && k != i :: RecOk(socks, recs[k]))
    && SockOk(socks, recs[i].rfd4, Inet) && SockOk(socks, recs[i].rfd6, Inet6)
  }

  lemma MakingBegins(recs: seq<Rec>, socks: seq<Sock>, ftabsize: nat, i: nat)
    requires Inv(recs, socks, ftabsize) && i < |recs| && NoClash(recs, i)
    ensures Making(recs, socks, ftabsize, i)
  {
    assert RecOk(socks, recs[i]);
  }

  lemma ActiveNoClash(recs: seq<Rec>, i: nat)
    requires IdsOk(recs) && i < |recs| && Active(recs[i])
    ensures NoClash(recs, i)
  {}

  lemma MakingEnds(recs: seq<Rec>, socks: seq<Sock>, ftabsize: nat, i: nat)
    requires Making(recs, socks, ftabsize, i) && Active(recs[i]) && recs[i].forwardall != 1
    ensures Inv(recs, socks, ftabsize)
  {}

  lemma MakingFails(recs: seq<Rec>, socks: seq<Sock>, ftabsize: nat, i: nat)
    requires Making(recs, socks, ftabsize, i)
    ensures Inv(recs[i := FreedRec(recs[i])], FreedSocks(socks, recs[i]), ftabsize)
  {
    FreedCounts(recs, socks, i);
    var recs' := recs[i := FreedRec(recs[i])];
    forall k | 0 <= k < |recs'| ensures RecOk(FreedSocks(socks, recs[i]), recs'[k]) {
      if k != i {
        FreedKeepsOther(recs, socks, i, k);
      }
    }
  }

  lemma FreedKeepsOther(recs: seq<Rec>, socks: seq<Sock>, i: nat, k: nat)
    requires CountsOk(recs, socks) && i < |recs| && k < |recs| && k != i && RecOk(socks, recs[k])
    requires SockOk(socks, recs[i].rfd4, Inet) && SockOk(socks, recs[i].rfd6, Inet6)
    ensures RecOk(FreedSocks(socks, recs[i]), recs[k])
  {
    FreedCounts(recs, socks, i);
    var recs' := recs[i := FreedRec(recs[i])];
    assert recs'[k] == recs[k];
    if recs[k].rfd4.Some? {
      RefsAtLeast(recs', k, recs[k].rfd4.value);
    }
    if recs[k].rfd6.Some? {
      RefsAtLeast(recs', k, recs[k].rfd6.value);
    }
  }

  /** A socket that allocate_rfd may hand out: a free one, or one of the family that can be shared. */
  predicate CanUse(socks: seq<Sock>, s: nat, family: Family) {
    s < |socks| && (socks[s].refs == 0 || (socks[s].family == family && socks[s].refs < MAX_REFS))
  }

  function Used(socks: seq<Sock>, s: nat, family: Family): (r: seq<Sock>)
    requires s < |socks|
    ensures |r| == |socks|
  {
    socks[s := Sock(socks[s].refs + 1, family)]
  }

  function WithSock(r: Rec, s: nat, family: Family): Rec {
    if family == Inet then r.(rfd4 := Some(s)) else r.(rfd6 := Some(s))
  }

  function SockFor(r: Rec, family: Family): Option<nat> {
    if family == Inet then r.rfd4 else r.rfd6
  }

  /** Giving record i a socket keeps the counts right. */
  lemma UseKeeps(recs: seq<Rec>, socks: seq<Sock>, ftabsize: nat, i: nat, s: nat, family: Family)
    requires Making(recs, socks, ftabsize, i) && CanUse(socks, s, family) && SockFor(recs[i], family).None?
    ensures Making(recs[i := WithSock(recs[i], s, family)], Used(socks, s, family), ftabsize, i)
  {
    var r := WithSock(recs[i], s, family);
    var recs', socks' := recs[i := r], Used(socks, s, family);
    forall x | 0 <= x < |socks| ensures socks'[x].refs == Refs(recs', x) && socks'[x].refs <= MAX_REFS {
      RefsUpdate(recs, i, r, x);
    }
    forall k | 0 <= k < |recs'| && k != i ensures RecOk(socks', recs'[k]) {
      assert RecOk(socks, recs[k]);
    }
    UseClash(recs, i, r);
  }

  lemma UseClash(recs: seq<Rec>, i: nat, r: Rec)
    requires IdsOk(recs) && i < |recs| && NoClash(recs, i)
    requires r.newId == recs[i].newId && r.crc == recs[i].crc && (Active(r) ==> NoClash(recs, i))
    ensures IdsOk(recs[i := r]) && NoClash(recs[i := r], i)
  {
    var recs' := recs[i := r];
    assert forall k | 0 <= k < |recs| :: recs'[k] == if k == i then r else recs[k];
  }

  /** Marking record i as sent, and counting the servers it was sent to. */
  lemma SentKeeps(recs: seq<Rec>, socks: seq<Sock>, ftabsize: nat, i: nat, r: Rec)
    requires Making(recs, socks, ftabsize, i) && r == recs[i].(sentto := r.sentto, forwardall := r.forwardall)
    ensures Making(recs[i := r], socks, ftabsize, i)
  {
    var recs' := recs[i := r];
    forall x | 0 <= x < |socks| ensures socks[x].refs == Refs(recs', x) && socks[x].refs <= MAX_REFS {
      RefsUpdate(recs, i, r, x);
    }
    UseClash(recs, i, r);
  }

  predicate Answers(r: Rec, id: nat, crc: nat) {
    Active(r) && r.newId == id && (r.crc == crc || crc == ALL_ONES)
  }

  /** The sockets in turn, from the last one shared on. */
  function SlotAt(j: nat, finger: nat): (k: nat)
    ensures k < RANDOM_SOCKS
  {
    (j + finger) % RANDOM_SOCKS
  }

  predicate NoneAdded(before: seq<Rec>, after: seq<Rec>) {
    forall r | r in after && Active(r) :: r in before
  }

  predicate YoungKept(before: seq<Rec>, after: seq<Rec>, now: int, age: int) {
    forall r | r in before && Active(r) && now - r.time < age :: r in after
  }

  lemma KeptByIndex(before: seq<Rec>, after: seq<Rec>, now: int, age: int)
    requires |after| == |before|
    requires forall k | 0 <= k < |before| ::
               after[k] == before[k] || (!Active(after[k]) && (Active(before[k]) ==> now - before[k].time >= age))
    ensures NoneAdded(before, after) && YoungKept(before, after, now, age)
  {
    forall r | r in before && Active(r) && now - r.time < age ensures r in after {
      var k :| 0 <= k < |before| && before[k] == r;
      assert after[k] == r;
    }
  }

  /** What get_new_frec's loop may do to a record. */
  predicate GivenUp(before: Rec, after: Rec, now: int) {
    after == before || (Active(before) && now - before.time >= 4 * TIMEOUT && after == FreedRec(before))
  }

  /** get_new_frec after k records: the last free one, or the oldest one if there is none. */
  predicate GivingUp(before: seq<Rec>, recs: seq<Rec>, now: int, k: nat, target: Option<nat>, oldest: Option<nat>) {
    && |recs| == |before| && k <= |recs|
    && (forall j | 0 <= j < |recs| :: if j < k then GivenUp(before[j], recs[j], now) else recs[j] == before[j])
    && (target.Some? ==> target.value < k && !Active(recs[target.value]))
    && (target.None? ==> recs == before && (forall j | 0 <= j < k :: Active(recs[j])) && IsOldest(recs[..k], oldest))
    && (oldest.Some? ==> oldest.value < k)
  }

  lemma GivingUpOn(before: seq<Rec>, recs: seq<Rec>, now: int, k: nat, target: Option<nat>, oldest: Option<nat>,
                   recs': seq<Rec>, target': Option<nat>, oldest': Option<nat>)
    requires GivingUp(before, recs, now, k, target, oldest) && k < |recs|
    requires if !Active(recs[k]) then recs' == recs && target' == Some(k) && oldest' == oldest
             else
               && (if now - recs[k].time >= 4 * TIMEOUT then recs' == recs[k := FreedRec(recs[k])] && target' == Some(k)
                   else recs' == recs && target' == target)
               && oldest' == if oldest.None? || recs[k].time <= recs[oldest.value].time then Some(k) else oldest
    ensures GivingUp(before, recs', now, k + 1, target', oldest')
  {
    if target'.None? {
      assert recs'[..k + 1][..k] == recs[..k];
      assert forall j | 0 <= j < k + 1 :: j < k ==> recs'[..k + 1][j] == recs[..k][j];
    }
  }

  predicate IsOldest(recs: seq<Rec>, oldest: Option<nat>) {
    if oldest.None? then recs == []
    else oldest.value < |recs| && forall k | 0 <= k < |recs| :: recs[oldest.value].time <= recs[k].time
  }

  /** A change to a free record that gives it no socket. */
  lemma RetimeKeeps(recs: seq<Rec>, socks: seq<Sock>, ftabsize: nat, i: nat, r: Rec)
    requires Inv(recs, socks, ftabsize) && i < |recs| && !Active(r) && !Active(recs[i]) && r.rfd4.None? && r.rfd6.None?
    ensures Inv(recs[i := r], socks, ftabsize)
  {
    assert RecOk(socks, recs[i]);
    var recs' := recs[i := r];
    forall x | 0 <= x < |socks| ensures socks[x].refs == Refs(recs', x) && socks[x].refs <= MAX_REFS {
      RefsUpdate(recs, i, r, x);
    }
    forall k | 0 <= k < |recs'| ensures RecOk(socks, recs'[k]) {
      assert k != i ==> RecOk(socks, recs[k]);
    }
  }

  lemma PrependKeeps(recs: seq<Rec>, socks: seq<Sock>, ftabsize: nat, r: Rec)
    requires Inv(recs, socks, ftabsize) && |recs| <= ftabsize && !Active(r) && r.rfd4.None? && r.rfd6.None?
    ensures Inv([r] + recs, socks, ftabsize)
  {
    var recs' := [r] + recs;
    forall x | 0 <= x < |socks| ensures socks[x].refs == Refs(recs', x) && socks[x].refs <= MAX_REFS {
      RefsHead(recs, r, x);
    }
    forall k | 0 <= k < |recs'| ensures RecOk(socks, recs'[k]) {
      assert k > 0 ==> recs'[k] == recs[k - 1] && RecOk(socks, recs[k - 1]);
    }
    assert forall k | 0 < k < |recs'| :: recs'[k] == recs[k - 1];
  }

  // ----- the servers a query is sent to -----

  datatype Kind = General | ForNodots | HasDomain

  /** A server; literal ones answer from the configuration and are never asked. */
  datatype Server = Server(addr: int, kind: Kind, domain: int, literal: bool, noAddr: bool, fixedSocket: bool, family: Family)

  predicate Suits(s: Server, kind: Kind, domain: int) {
    kind == s.kind && (kind != HasDomain || domain == s.domain) && !s.literal
  }

  /** The server j places on from `start`, going back to the first one at the end of the list. */
  function Around(start: nat, j: nat, n: nat): (k: nat)
    requires start < n && j < n
    ensures k < n
  {
    if start + j < n then start + j else start + j - n
  }

  /** Of the first j servers from `start` on, those that the query reaches. */
  function Targets(reach: seq<bool>, start: nat, j: nat): (r: seq<nat>)
    requires start < |reach| && j <= |reach|
    ensures forall x | x in r :: x < |reach| && reach[x]
  {
    if j == 0 then []
    else
      var k := Around(start, j - 1, |reach|);
      Targets(reach, start, j - 1) + (if reach[k] then [k] else [])
  }

  lemma {:induction false} TargetsGrow(reach: seq<bool>, start: nat, j: nat, m: nat)
    requires start < |reach| && j <= m <= |reach|
    ensures Targets(reach, start, j) <= Targets(reach, start, m)
  {
    if j < m {
      TargetsGrow(reach, start, j, m - 1);
    }
  }

  /** Once round: every server that can be reached is a target, and exactly once. */
  lemma {:induction false} TargetsOnce(reach: seq<bool>, start: nat, j: nat)
    requires start < |reach| && j <= |reach|
    ensures forall x, y | 0 <= x < y < |Targets(reach, start, j)| :: Targets(reach, start, j)[x] != Targets(reach, start, j)[y]
    ensures forall x | x in Targets(reach, start, j) :: (if x >= start then x - start else x + |reach| - start) < j
    ensures forall d | 0 <= d < j && reach[Around(start, d, |reach|)] :: Around(start, d, |reach|) in Targets(reach, start, j)
  {
    if j > 0 {
      TargetsOnce(reach, start, j - 1);
      var shorter, longer := Targets(reach, start, j - 1), Targets(reach, start, j);
      forall x, y | 0 <= x < y < |longer| ensures longer[x] != longer[y] {
        assert longer[x] == shorter[x] && shorter[x] in shorter;
      }
    }
  }

  lemma AllTargets(reach: seq<bool>, start: nat, x: nat)
    requires start < |reach| && x < |reach| && reach[x]
    ensures x in Targets(reach, start, |reach|)
  {
    TargetsOnce(reach, start, |reach|);
    var d := if x >= start then x - start else x + |reach| - start;
    assert Around(start, d, |reach|) == x;
  }

  /** How many places server k comes after `start`, going round. */
  function Places(start: nat, k: nat, n: nat): int {
    if k >= start then k - start else k + n - start
  }

  /** The targets come in the order in which one meets them. */
  lemma {:induction false} TargetsInOrder(reach: seq<bool>, start: nat, j: nat)
    requires start < |reach| && j <= |reach|
    ensures forall x | x in Targets(reach, start, j) :: Places(start, x, |reach|) < j
    ensures forall x, y | 0 <= x < y < |Targets(reach, start, j)| ::
              Places(start, Targets(reach, start, j)[x], |reach|) < Places(start, Targets(reach, start, j)[y], |reach|)
  {
    if j > 0 {
      TargetsInOrder(reach, start, j - 1);
      var k := Around(start, j - 1, |reach|);
      assert Places(start, k, |reach|) == j - 1;
      var shorter, longer := Targets(reach, start, j - 1), Targets(reach, start, j);
      assert longer == shorter + if reach[k] then [k] else [];
      forall x, y | 0 <= x < y < |longer| ensures Places(start, longer[x], |reach|) < Places(start, longer[y], |reach|) {
        assert longer[x] == shorter[x] && shorter[x] in shorter;
      }
    }
  }

  /** What sending changes in a record: its sockets, the last server it was sent to and the count of replies to wait for. */
  predicate SentOn(before: Rec, after: Rec, sends: seq<nat>) {
    && after == before.(rfd4 := after.rfd4, rfd6 := after.rfd6, sentto := after.sentto, forwardall := after.forwardall)
    && after.sentto == (if sends == [] then before.sentto else Some(sends[|sends| - 1]))
    && after.forwardall == if before.forwardall == 0 then 0 else before.forwardall + |sends|
  }

  lemma SentOnFurther(a: Rec, b: Rec, c: Rec, sends: seq<nat>, more: seq<nat>)
    requires SentOn(a, b, sends) && SentOn(b, c, more)
    ensures SentOn(a, c, sends + more)
  {}

  /** No socket of the family can be had, new or shared. */
  predicate NoSocket(socks: seq<Sock>, family: Family, canOpen: bool) {
    forall k | 0 <= k < |socks| :: !CanUse(socks, k, family) || (socks[k].refs == 0 && !canOpen)
  }

  /** At most one socket of the program could be used for the family. */
  ghost predicate Scarce(socks: seq<Sock>, family: Family, canOpen: bool) {
    exists y: nat :: AllTakenBut(socks, family, canOpen, y)
  }

  predicate AllTakenBut(socks: seq<Sock>, family: Family, canOpen: bool, y: nat) {
    forall x | 0 <= x < |socks| && x != y ::
      if socks[x].refs == 0 then !canOpen else socks[x].family != family || socks[x].refs >= MAX_REFS
  }

  /** Freeing a record that has no socket of the family leaves at most one more to use. */
  lemma ScarceAfter(socks: seq<Sock>, r: Rec, family: Family, canOpen: bool)
    requires SockOk(socks, r.rfd4, Inet) && SockOk(socks, r.rfd6, Inet6) && SockFor(r, family).None? && NoSocket(socks, family, canOpen)
    ensures Scarce(FreedSocks(socks, r), family, canOpen) && Scarce(socks, family, canOpen)
  {
    var y := if r.rfd4.Some? then r.rfd4.value else if r.rfd6.Some? then r.rfd6.value else |socks|;
    forall x | 0 <= x < |socks|
      ensures if socks[x].refs == 0 then !canOpen else socks[x].family != family || socks[x].refs >= MAX_REFS
    {
      assert !CanUse(socks, x, family) || (socks[x].refs == 0 && !canOpen);
    }
    assert AllTakenBut(FreedSocks(socks, r), family, canOpen, y);
    assert AllTakenBut(socks, family, canOpen, y);
  }

  // ----- ids -----

  predicate IdFree(recs: seq<Rec>, id: nat, crc: nat) {
    forall k | 0 <= k < |recs| :: !Answers(recs[k], id, crc)
  }

  function Ids(recs: seq<Rec>): set<nat> {
    set k | 0 <= k < |recs| :: recs[k].newId
  }

  lemma {:induction false} IdsFew(recs: seq<Rec>)
    ensures |Ids(recs)| <= |recs|
  {
    if recs != [] {
      var n := |recs| - 1;
      IdsFew(recs[..n]);
      assert Ids(recs) == Ids(recs[..n]) + {recs[n].newId};
    }
  }

  function Below(n: nat): set<nat> {
    if n == 0 then {} else Below(n - 1) + {n - 1}
  }

  lemma {:induction false} BelowCount(n: nat)
    ensures |Below(n)| == n && forall x | x in Below(n) :: x < n
  {
    if n > 0 {
      BelowCount(n - 1);
    }
  }

  /** With fewer records than ids there is always an id for get_id to draw, whatever the question. */
  lemma FreeIdExists(recs: seq<Rec>, crc: nat, ids: nat)
    requires |recs| < ids
    ensures exists id: nat :: id < ids && IdFree(recs, id, crc)
  {
    IdsFew(recs);
    BelowCount(ids);
    if Below(ids) <= Ids(recs) {
      SubsetCount(Below(ids), Ids(recs));
      assert false;
    }
    var id :| id in Below(ids) && id !in Ids(recs);
    assert IdFree(recs, id, crc);
  }

  lemma {:induction false} SubsetCount(a: set<nat>, b: set<nat>)
    requires a <= b
    ensures |a| <= |b|
  {
    if a != {} {
      var x :| x in a;
      SubsetCount(a - {x}, b - {x});
    }
  }

  lemma IdsStayFree(before: seq<Rec>, after: seq<Rec>, draws: seq<nat>, crc: nat)
    requires NoneAdded(before, after)
    ensures (exists d | d in draws :: IdFree(before, d, crc)) ==> exists d | d in draws :: IdFree(after, d, crc)
  {
    if d :| d in draws && IdFree(before, d, crc) {
      forall k | 0 <= k < |after| ensures !Answers(after[k], d, crc) {
        if Active(after[k]) {
          var j :| 0 <= j < |before| && before[j] == after[k];
          assert !Answers(before[j], d, crc);
        }
      }
      assert IdFree(after, d, crc);
    }
  }

  // ----- replies -----

  /** What a reply does to the count of a record that waits: the record is done when this is None. */
  function AfterReply(forwardall: nat, good: bool): (r: Option<nat>)
    requires forwardall != 1
    ensures r.Some? ==> r.value + 1 == forwardall && r.value >= 2
  {
    if forwardall == 0 || forwardall == 2 || good then None else Some(forwardall - 1)
  }

  // ----- one query or reply -----

  /** A query from `source`; one that is answered from the configuration is local. */
  datatype Query = Query(source: int, id: nat, crc: nat, signed: bool, local: bool, kind: Kind, domain: int)

  /** Sent on in a record, or answered at once with an error or from the configuration. */
  datatype Outcome = Forwarded(slot: nat, sends: seq<nat>, starved: bool) | Failed(starved: bool)

  datatype Answer = Answer(dest: int, id: nat)

  function Reach(servers: seq<Server>, kind: Kind, domain: int, sendOk: seq<bool>): (r: seq<bool>)
    requires |sendOk| == |servers|
    ensures |r| == |servers|
  {
    seq(|servers|, k requires 0 <= k < |servers| => Suits(servers[k], kind, domain) && sendOk[k])
  }

  /** What was sent: one server or all of them, unless there was no socket. */
  predicate SendsRight(sends: seq<nat>, starved: bool, targets: seq<nat>, one: bool) {
    && sends <= targets && (one ==> |sends| <= 1)
    && (!starved ==> sends == if one && targets != [] then targets[..1] else targets)
  }

  /** A query lacked a socket: some server of its kind would have needed a random one, and hardly any could be had. */
  ghost predicate Starving(servers: seq<Server>, kind: Kind, domain: int, socks: seq<Sock>, canOpen: bool) {
    exists k | 0 <= k < |servers| ::
      && servers[k].kind == kind && (kind == HasDomain ==> servers[k].domain == domain) && !servers[k].literal
      && !servers[k].fixedSocket && Scarce(socks, servers[k].family, canOpen)
  }

  /**
    Whom a query was sent to, from server `start` on. A server may be asked if it is of the kind and domain of the query
    and not literal. Those asked are such servers that could be sent to, in the order of the list: the first one, or all
    of them unless sockets ran out. Nobody was asked only if none could be sent to, or if sockets ran out.
   */
  predicate AskedRightly(servers: seq<Server>, sendOk: seq<bool>, kind: Kind, domain: int, start: nat, all: bool, out: Outcome)
    requires start < |servers| == |sendOk|
  {
    match out
    case Forwarded(_, sends, starved) =>
      && sends != []
      && (forall x | 0 <= x < |sends| ::
            && sends[x] < |servers| && sendOk[sends[x]]
            && servers[sends[x]].kind == kind && (kind == HasDomain ==> servers[sends[x]].domain == domain) && !servers[sends[x]].literal)
      && (forall x, y | 0 <= x < y < |sends| :: Places(start, sends[x], |servers|) < Places(start, sends[y], |servers|))
      && (!all ==> |sends| == 1)
      && (forall k | 0 <= k < |servers| && sendOk[k]
                     && servers[k].kind == kind && (kind == HasDomain ==> servers[k].domain == domain) && !servers[k].literal ::
            && Places(start, sends[0], |servers|) <= Places(start, k, |servers|)
            && (all && !starved ==> k in sends))
    case Failed(starved) =>
      !starved ==> forall k | 0 <= k < |servers| && servers[k].kind == kind && (kind == HasDomain ==> servers[k].domain == domain)
                                && !servers[k].literal :: !sendOk[k]
  }

  /** Targets that can be reached are such servers. */
  lemma ReachMeans(servers: seq<Server>, sendOk: seq<bool>, kind: Kind, domain: int, k: nat)
    requires k < |servers| == |sendOk|
    ensures Reach(servers, kind, domain, sendOk)[k]
            <==> sendOk[k] && servers[k].kind == kind && (kind == HasDomain ==> servers[k].domain == domain) && !servers[k].literal
  {}

  lemma SentRightly(servers: seq<Server>, sendOk: seq<bool>, kind: Kind, domain: int, start: nat, all: bool, out: Outcome)
    requires start < |servers| == |sendOk|
    requires var targets := Targets(Reach(servers, kind, domain, sendOk), start, |servers|);
             if out.Forwarded? then out.sends != [] && SendsRight(out.sends, out.starved, targets, !all)
             else !out.starved ==> targets == []
    ensures AskedRightly(servers, sendOk, kind, domain, start, all, out)
  {
    var reach := Reach(servers, kind, domain, sendOk);
    var targets := Targets(reach, start, |servers|);
    TargetsInOrder(reach, start, |servers|);
    forall k | 0 <= k < |servers|
      ensures reach[k] <==> sendOk[k] && servers[k].kind == kind && (kind == HasDomain ==> servers[k].domain == domain) && !servers[k].literal
      ensures reach[k] ==> k in targets
    {
      ReachMeans(servers, sendOk, kind, domain, k);
      if reach[k] {
        AllTargets(reach, start, k);
      }
    }
    if out.Forwarded? {
      forall k | 0 <= k < |servers| && reach[k] ensures Places(start, out.sends[0], |servers|) <= Places(start, k, |servers|) {
        var x :| 0 <= x < |targets| && targets[x] == k;
        assert out.sends[0] == targets[0];
      }
    }
  }

  /** After j servers: all of them that can be reached have been sent to, or none if one is enough. */
  predicate Asked(sends: seq<nat>, reach: seq<bool>, start: nat, j: nat, one: bool)
    requires start < |reach| && j <= |reach|
  {
    sends == Targets(reach, start, j) && (one ==> sends == [])
  }

  lemma AskedOn(sends: seq<nat>, reach: seq<bool>, start: nat, j: nat, one: bool)
    requires start < |reach| && j < |reach| && Asked(sends, reach, start, j, one)
    ensures var k := Around(start, j, |reach|);
            if !reach[k] then Asked(sends, reach, start, j + 1, one)
            else if one then SendsRight(sends + [k], false, Targets(reach, start, |reach|), one)
            else Asked(sends + [k], reach, start, j + 1, one)
    ensures SendsRight(sends, true, Targets(reach, start, |reach|), one)
  {
    TargetsGrow(reach, start, j, |reach|);
    TargetsGrow(reach, start, j + 1, |reach|);
  }

  /** Freeing records that answer an id, as get_id does for a signed query. */
  predicate FreedFor(before: seq<Rec>, after: seq<Rec>, id: nat, crc: nat) {
    && |after| == |before|
    && forall k | 0 <= k < |before| ::
         after[k] == before[k] || (Answers(before[k], id, crc) && after[k] == FreedRec(before[k]))
  }

  /** Records that a new query must leave alone: young ones that do not clash with it. */
  predicate BystandersKept(before: seq<Rec>, after: seq<Rec>, now: int, q: Query) {
    forall r | r in before && Active(r) && now - r.time < TIMEOUT && !(q.signed && Answers(r, q.id, q.crc)) :: r in after
  }

  /** Apart from record i there is nothing new. */
  predicate OnlyNew(before: seq<Rec>, after: seq<Rec>, i: nat) {
    forall k | 0 <= k < |after| && k != i && Active(after[k]) :: after[k] in before
  }

  /** Only records in the way of a signed query have been freed. */
  predicate Spared(before: seq<Rec>, after: seq<Rec>, i: nat, q: Query) {
    && |after| == |before|
    && forall k | 0 <= k < |before| && k != i ::
         after[k] == before[k] || (q.signed && Answers(before[k], q.id, q.crc) && !Active(after[k]))
  }

  lemma QueryKept(before: seq<Rec>, cleared: seq<Rec>, after: seq<Rec>, i: nat, now: int, q: Query)
    requires NoneAdded(before, cleared) && YoungKept(before, cleared, now, TIMEOUT)
    requires Spared(cleared, after, i, q) && i < |cleared| && !Active(cleared[i])
    ensures BystandersKept(before, after, now, q) && OnlyNew(before, after, i)
    ensures !Active(after[i]) ==> NoneAdded(before, after)
  {
    forall r | r in before && Active(r) && now - r.time < TIMEOUT && !(q.signed && Answers(r, q.id, q.crc)) ensures r in after {
      var k :| 0 <= k < |cleared| && cleared[k] == r;
      assert after[k] == r;
    }
    forall k | 0 <= k < |after| && k != i && Active(after[k]) ensures after[k] in before {
      assert cleared[k] == after[k];
    }
  }

  /** When a query goes to all servers at once: there is no favourite, or it is time to find a new one. */
  predicate AskAll(kind: Kind, order: bool, lastServer: Option<nat>, count: nat, time: int, now: int) {
    kind == General && !order && (lastServer.None? || count > FORWARD_TEST || now - time > FORWARD_TIME)
  }

  function StartAt(kind: Kind, order: bool, lastServer: Option<nat>, all: bool): nat {
    if kind != General || order || all || lastServer.None? then 0 else lastServer.value
  }

  /** A record filled in for a query. */
  predicate FilledFor(r: Rec, q: Query) {
    r.source == q.source && r.origId == q.id && r.crc == q.crc && (q.signed ==> r.newId == q.id)
  }

  /** The table is full of records that are too young to give up. */
  predicate Full(recs: seq<Rec>, ftabsize: nat, now: int) {
    |recs| > ftabsize && forall k | 0 <= k < |recs| :: Active(recs[k]) && now - recs[k].time < TIMEOUT
  }

  /** A query that was sent waits for one reply, or for one from each server that it was sent to. */
  predicate Waiting(r: Rec, sends: seq<nat>, all: bool) {
    && sends != [] && r.sentto == Some(sends[|sends| - 1])
    && r.forwardall == if all then |sends| + 1 else 0
  }

  // ----- one reply -----

  predicate Asker(r: Rec, q: Query) {
    Active(r) && r.origId == q.id && r.crc == q.crc && r.source == q.source
  }

  /** The client has asked this before, and waits. */
  predicate Repeated(recs: seq<Rec>, q: Query) {
    exists k | 0 <= k < |recs| :: Asker(recs[k], q)
  }

  /** A reply as it comes in: its sender, its id and question, and whether it is more than an error. */
  datatype Reply = Reply(addr: int, wellFormed: bool, id: nat, crc: nat, good: bool, signed: bool)

  function Gone(r: Rec, server: nat): Rec {
    if r.sentto == Some(server) then FreedRec(r) else r
  }

  /** The same query, perhaps sent to other servers. */
  predicate SameQuery(r: Rec, s: Rec) {
    Active(s) && s.source == r.source && s.origId == r.origId && s.newId == r.newId && s.crc == r.crc && s.time == r.time
  }

  /** A query that waits is sent to the servers after the last one it went to: to all, or to one if servers have an order. */
  predicate Retried(r: Rec, after: Rec, out: Outcome, servers: seq<Server>, order: bool, sendOk: seq<bool>)
    requires Active(r) && r.sentto.value < |servers| == |sendOk|
  {
    var s := servers[r.sentto.value];
    var start := if r.sentto.value + 1 < |servers| then r.sentto.value + 1 else 0;
    && AskedRightly(servers, sendOk, s.kind, s.domain, start, !order || r.forwardall != 0, out)
    && if out.Failed? then !Active(after)
       else
         && SameQuery(r, after) && after.sentto == Some(out.sends[|out.sends| - 1])
         && after.forwardall == if !order then |out.sends| + 1 else if r.forwardall == 0 then 0 else r.forwardall + |out.sends|
  }

  /** A server that may answer; the general ones only, if asked for. */
  predicate IsAt(s: Server, addr: int, generalOnly: bool) {
    s.addr == addr && !s.literal && !s.noAddr && (generalOnly ==> s.kind == General)
  }

  /** A failed query that went to one server is tried with the others, unless servers have an order. */
  predicate TryOthers(r: Rec, reply: Reply, order: bool) {
    !reply.good && !order && r.forwardall == 0 && !reply.signed
  }

  /** The record after a reply that is not the last one it waits for. */
  function StillWaiting(r: Rec, good: bool): Rec
    requires r.forwardall != 1 && AfterReply(r.forwardall, good).Some?
  {
    r.(forwardall := AfterReply(r.forwardall, good).value)
  }

  lemma StillWaitingKeeps(recs: seq<Rec>, socks: seq<Sock>, ftabsize: nat, i: nat, good: bool)
    requires Inv(recs, socks, ftabsize) && i < |recs| && Active(recs[i]) && recs[i].forwardall != 1
    requires AfterReply(recs[i].forwardall, good).Some?
    ensures Inv(recs[i := StillWaiting(recs[i], good)], socks, ftabsize)
  {
    ActiveNoClash(recs, i);
    MakingBegins(recs, socks, ftabsize, i);
    SentKeeps(recs, socks, ftabsize, i, StillWaiting(recs[i], good));
    MakingEnds(recs[i := StillWaiting(recs[i], good)], socks, ftabsize, i);
  }

  /** What a reply does to its record: the others are asked, or it is answered and freed, or it waits for one reply less. */
  predicate Replied(r: Rec, after: Rec, reply: Reply, order: bool, usable: bool, answer: Option<Answer>) {
    && r.forwardall != 1
    && if TryOthers(r, reply, order) then answer.None?
       else if AfterReply(r.forwardall, reply.good).None? then
         after == FreedRec(r) && answer == if usable then Some(Answer(r.source, r.origId)) else None
       else after == StillWaiting(r, reply.good) && answer.None?
  }

  /** The states of a record between its replies, and what each reply did to it. */
  datatype Turn = Turn(reply: Reply, usable: bool, answer: Option<Answer>)

  predicate Replies(recs: seq<Rec>, turns: seq<Turn>, order: bool) {
    && |recs| == |turns| + 1
    && forall k | 0 <= k < |turns| ::
         Active(recs[k]) && Replied(recs[k], recs[k + 1], turns[k].reply, order, turns[k].usable, turns[k].answer)
  }

  /**
    A query sent to n servers is finished by the first good reply, and by the n-th one if all are errors; not before,
    and always then. Only the reply that finishes it is passed on, to the client that asked.
   */
  lemma {:induction false} AllServersCounted(recs: seq<Rec>, turns: seq<Turn>, order: bool, sends: seq<nat>)
    requires Replies(recs, turns, order) && Active(recs[0]) && Waiting(recs[0], sends, true)
    ensures var m := |turns|;
            && m <= |sends| && (forall k | 0 <= k < m - 1 :: !turns[k].reply.good && turns[k].answer.None?)
            && (Active(recs[m]) <==> m < |sends| && (m > 0 ==> !turns[m - 1].reply.good))
            && (Active(recs[m]) ==> recs[m] == recs[0].(forwardall := |sends| + 1 - m) && (m > 0 ==> turns[m - 1].answer.None?))
            && (!Active(recs[m]) ==>
                  m > 0 && turns[m - 1].answer == if turns[m - 1].usable then Some(Answer(recs[0].source, recs[0].origId)) else None)
    decreases |turns|
  {
    if turns != [] {
      var m := |turns| - 1;
      AllServersCounted(recs[..m + 1], turns[..m], order, sends);
      assert Active(recs[m]) && Replied(recs[m], recs[m + 1], turns[m].reply, order, turns[m].usable, turns[m].answer);
      assert m > 0 ==> turns[..m][m - 1] == turns[m - 1];
      assert forall k | 0 <= k < m :: turns[..m][k] == turns[k];
    }
  }

  /** The favourite server after a reply to a query that any server may answer. */
  predicate Favourite(servers: seq<Server>, reply: Reply, sentto: nat, last: Option<nat>) {
    if !reply.good then last.None?
    else
      && last.Some?
      && ((last.value < |servers| && var s := servers[last.value];
             s.addr == reply.addr && !s.literal && !s.noAddr && s.kind == General)
          || (last.value == sentto && forall k | 0 <= k < |servers| ::
                !(servers[k].addr == reply.addr && !servers[k].literal && !servers[k].noAddr && servers[k].kind == General)))
  }
}
