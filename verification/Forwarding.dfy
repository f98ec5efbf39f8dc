/**
  Forwarding queries and returning replies (external/dnsmasq/src/forward.c): the operations on the table.
 */
module Forwarding {
  import opened Options
  import opened ForwardRuns
  import opened ForwardTable

  // ----- searching the list -----

  /** lookup_frec: an unknown question matches any. */
  method LookupFrec(recs: seq<Rec>, id: nat, crc: nat) returns (i: Option<nat>)
    ensures i.Some? ==> i.value < |recs| && Answers(recs[i.value], id, crc) && forall k | 0 <= k < i.value :: !Answers(recs[k], id, crc)
    ensures i.None? ==> forall k | 0 <= k < |recs| :: !Answers(recs[k], id, crc)
  {
    for k := 0 to |recs|
      invariant forall j | 0 <= j < k :: !Answers(recs[j], id, crc)
    {
      if Active(recs[k]) && recs[k].newId == id && (recs[k].crc == crc || crc == ALL_ONES) {
        return Some(k);
      }
    }
    return None;
  }

  /** The loop of get_id: the first id drawn that is not in use. */
  method DrawId(recs: seq<Rec>, crc: nat, draws: seq<nat>) returns (id: nat)
    requires exists d | d in draws :: IdFree(recs, d, crc)
    ensures id in draws && IdFree(recs, id, crc)
  {
    var k := 0;
    id := draws[0];
    var f := LookupFrec(recs, id, crc);
    while f.Some?
      invariant k < |draws| && id == draws[k] && forall j | 0 <= j < k :: !IdFree(recs, draws[j], crc)
      invariant f.Some? <==> !IdFree(recs, id, crc)
      decreases |draws| - k
    {
      k := k + 1;
      id := draws[k];
      f := LookupFrec(recs, id, crc);
    }
  }

  method LookupBySender(recs: seq<Rec>, id: nat, source: int, crc: nat) returns (i: Option<nat>)
    ensures i.Some? ==> i.value < |recs| && Active(recs[i.value]) && recs[i.value].origId == id && recs[i.value].crc == crc
                        && recs[i.value].source == source
    ensures forall k | 0 <= k < (if i.Some? then i.value else |recs|) && Active(recs[k]) ::
              !(recs[k].origId == id && recs[k].crc == crc && recs[k].source == source)
  {
    for k := 0 to |recs|
      invariant forall j | 0 <= j < k && Active(recs[j]) :: !(recs[j].origId == id && recs[j].crc == crc && recs[j].source == source)
    {
      if Active(recs[k]) && recs[k].origId == id && recs[k].crc == crc && recs[k].source == source {
        return Some(k);
      }
    }
    return None;
  }

  class Forwarder {
    const ftabsize: nat
    const servers: seq<Server>
    var recs: seq<Rec>
    var socks: seq<Sock>
    var finger: nat
    var lastServer: Option<nat>
    var forwardCount: nat
    var forwardTime: int

    ghost predicate Valid()
      reads this
    {
      Inv(recs, socks, ftabsize) && InRange()
    }

    /** What is remembered of servers and sockets is in their lists. */
    ghost predicate InRange()
      reads this
    {
      && finger < RANDOM_SOCKS && (lastServer.Some? ==> lastServer.value < |servers|)
      && forall k | 0 <= k < |recs| && Active(recs[k]) :: recs[k].sentto.value < |servers|
    }

    /** Record i is being sent. */
    ghost predicate Sending(i: nat)
      reads this
    {
      Making(recs, socks, ftabsize, i) && InRange()
    }

    constructor (ftabsize: nat, servers: seq<Server>)
      ensures Valid() && recs == [] && this.ftabsize == ftabsize && this.servers == servers
    {
      this.ftabsize, this.servers := ftabsize, servers;
      recs, socks, finger := [], seq(RANDOM_SOCKS, _ => Sock(0, Inet)), 0;
      lastServer, forwardCount, forwardTime := None, 0, 0;
    }

    method FreeFrec(i: nat)
      requires i < |recs| && SockOk(socks, recs[i].rfd4, Inet) && SockOk(socks, recs[i].rfd6, Inet6)
      modifies this`recs, this`socks
      ensures recs == old(recs)[i := FreedRec(old(recs)[i])] && socks == FreedSocks(old(socks), old(recs)[i])
    {
      var r := recs[i];
      if r.rfd4.Some? {
        socks := socks[r.rfd4.value := socks[r.rfd4.value].(refs := socks[r.rfd4.value].refs - 1)];
      }
      if r.rfd6.Some? {
        socks := socks[r.rfd6.value := socks[r.rfd6.value].(refs := socks[r.rfd6.value].refs - 1)];
      }
      recs := recs[i := r.(rfd4 := None, rfd6 := None, sentto := None)];
    }

    /** allocate_rfd: a new socket if one can be had, otherwise one to share. */
    method AllocateRfd(family: Family, canOpen: bool) returns (s: Option<nat>)
      requires |socks| == RANDOM_SOCKS && finger < RANDOM_SOCKS && forall k | 0 <= k < RANDOM_SOCKS :: socks[k].refs <= MAX_REFS
      modifies this`socks, this`finger
      ensures finger < RANDOM_SOCKS
      ensures if s.Some? then CanUse(old(socks), s.value, family) && socks == Used(old(socks), s.value, family) else socks == old(socks)
      ensures s.None? ==> NoSocket(socks, family, canOpen)
      ensures s.Some? && old(socks)[s.value].refs > 0 ==> !canOpen || forall k | 0 <= k < RANDOM_SOCKS :: old(socks)[k].refs > 0
      ensures finger == if s.Some? && old(socks)[s.value].refs > 0 then s.value else old(finger)
    {
      s := FirstUnused();
      if s.Some? && canOpen {
        socks := socks[s.value := Sock(1, family)];
        return;
      }
      ghost var allUsed := s.None?;
      s := Shareable(family);
      if s.None? {
        assert allUsed || !canOpen;
        forall k | 0 <= k < RANDOM_SOCKS ensures !CanUse(socks, k, family) || (socks[k].refs == 0 && !canOpen) {
          assert !CanShare(k, family);
        }
      }
      if s.Some? {
        finger := s.value;
        socks := socks[s.value := socks[s.value].(refs := socks[s.value].refs + 1)];
      }
    }

    method FirstUnused() returns (s: Option<nat>)
      requires |socks| == RANDOM_SOCKS
      ensures s.Some? ==> s.value < RANDOM_SOCKS && socks[s.value].refs == 0
      ensures s.None? ==> forall k | 0 <= k < RANDOM_SOCKS :: socks[k].refs != 0
    {
      for i := 0 to RANDOM_SOCKS
        invariant forall k | 0 <= k < i :: socks[k].refs != 0
      {
        if socks[i].refs == 0 {
          return Some(i);
        }
      }
      return None;
    }

    predicate CanShare(k: nat, family: Family)
      requires |socks| == RANDOM_SOCKS && k < RANDOM_SOCKS
      reads this
    {
      socks[k].refs != 0 && socks[k].family == family && socks[k].refs != MAX_REFS
    }

    method Shareable(family: Family) returns (s: Option<nat>)
      requires |socks| == RANDOM_SOCKS && finger < RANDOM_SOCKS
      ensures s.Some? ==> s.value < RANDOM_SOCKS && CanShare(s.value, family)
      ensures s.None? ==> forall k | 0 <= k < RANDOM_SOCKS :: !CanShare(k, family)
    {
      for i := 0 to RANDOM_SOCKS
        invariant forall j | 0 <= j < i :: !CanShare(SlotAt(j, finger), family)
      {
        var k := SlotAt(i, finger);
        if CanShare(k, family) {
          return Some(k);
        }
      }
      forall k | 0 <= k < RANDOM_SOCKS ensures !CanShare(k, family) {
        var j := if k >= finger then k - finger else k + RANDOM_SOCKS - finger;
        assert SlotAt(j, finger) == k;
      }
      return None;
    }

    /** get_new_frec without waiting: a free record, one that is old enough to be given up, or a new one. */
    method GetNewFrec(now: int) returns (i: Option<nat>)
      requires Valid()
      modifies this`recs, this`socks
      ensures Valid()
      ensures i.Some? ==> i.value < |recs| && !Active(recs[i.value]) && recs[i.value].time == now
      ensures i.None? ==> recs == old(recs)
      ensures i.None? <==> Full(old(recs), ftabsize, now)
      ensures |recs| > |old(recs)| ==> forall k | 0 <= k < |old(recs)| :: Active(old(recs)[k]) && now - old(recs)[k].time < 2 * TIMEOUT
      ensures NoneAdded(old(recs), recs) && YoungKept(old(recs), recs, now, TIMEOUT) && Step(old(recs), recs, Quiet)
      ensures |old(recs)| <= ftabsize ==> YoungKept(old(recs), recs, now, 2 * TIMEOUT)
    {
      var target, oldest := GiveUpOld(now);
      if target.Some? {
        i := target;
        Retime(i.value, now);
        KeptByIndex(old(recs), recs, now, 2 * TIMEOUT);
        FreedStep(old(recs), recs);
        return;
      }
      if oldest.Some? && now - recs[oldest.value].time >= TIMEOUT {
        if now - recs[oldest.value].time < 2 * TIMEOUT && |recs| <= ftabsize {
          Prepend(now);
          return Some(0);
        }
        TakeOver(oldest.value, now);
        KeptByIndex(old(recs), recs, now, if |recs| <= ftabsize then 2 * TIMEOUT else TIMEOUT);
        FreedStep(old(recs), recs);
        return oldest;
      }
      if |recs| > ftabsize {
        return None;
      }
      Prepend(now);
      return Some(0);
    }

    /** The loop of get_new_frec: records of four times the timeout are freed; the last free one and the oldest are noted. */
    method GiveUpOld(now: int) returns (target: Option<nat>, oldest: Option<nat>)
      requires Valid()
      modifies this`recs, this`socks
      ensures Valid() && |recs| == |old(recs)|
      ensures forall k | 0 <= k < |recs| :: GivenUp(old(recs)[k], recs[k], now)
      ensures if target.Some? then target.value < |recs| && !Active(recs[target.value])
              else recs == old(recs) && (forall k | 0 <= k < |recs| :: Active(recs[k])) && IsOldest(recs, oldest)
    {
      target, oldest := None, None;
      for k := 0 to |recs|
        invariant Valid() && GivingUp(old(recs), recs, now, k, target, oldest)
      {
        ghost var recs0, target0, oldest0 := recs, target, oldest;
        if !Active(recs[k]) {
          target := Some(k);
        } else {
          if now - recs[k].time >= 4 * TIMEOUT {
            Cancel(k);
            target := Some(k);
          }
          if oldest.None? || recs[k].time <= recs[oldest.value].time {
            oldest := Some(k);
          }
        }
        GivingUpOn(old(recs), recs0, now, k, target0, oldest0, recs, target, oldest);
      }
      assert recs[..|recs|] == recs;
    }

    /** Frees a record and keeps the table right. */
    method Cancel(i: nat)
      requires Valid() && i < |recs|
      modifies this`recs, this`socks
      ensures Valid() && recs == old(recs)[i := FreedRec(old(recs)[i])]
    {
      FreeKeeps(recs, socks, ftabsize, i);
      assert RecOk(socks, recs[i]);
      FreeFrec(i);
    }

    method Retime(i: nat, now: int)
      requires Valid() && i < |recs| && !Active(recs[i])
      modifies this`recs
      ensures Valid() && recs == old(recs)[i := old(recs)[i].(time := now)]
    {
      RetimeKeeps(recs, socks, ftabsize, i, recs[i].(time := now));
      recs := recs[i := recs[i].(time := now)];
    }

    method TakeOver(i: nat, now: int)
      requires Valid() && i < |recs|
      modifies this`recs, this`socks
      ensures Valid() && recs == old(recs)[i := FreedRec(old(recs)[i]).(time := now)]
    {
      Cancel(i);
      Retime(i, now);
    }

    method Prepend(now: int)
      requires Valid() && |recs| <= ftabsize
      modifies this`recs
      ensures Valid() && |recs| == |old(recs)| + 1 && !Active(recs[0]) && recs[0].time == now
      ensures NoneAdded(old(recs), recs) && YoungKept(old(recs), recs, now, 2 * TIMEOUT) && Step(old(recs), recs, Quiet)
    {
      var r := Rec(None, None, None, 0, 0, 0, 0, 0, now);
      PrependKeeps(recs, socks, ftabsize, r);
      HeadStep(recs, r);
      recs := [r] + recs;
    }

    /** get_id: a signed query keeps its id, and a record in its way is freed. */
    method GetId(force: bool, forceId: nat, crc: nat, draws: seq<nat>) returns (id: nat)
      requires Valid() && (!force ==> exists d | d in draws :: IdFree(recs, d, crc))
      modifies this`recs, this`socks
      ensures Valid()
      ensures if force then id == forceId && FreedFor(old(recs), recs, id, crc) && (crc != ALL_ONES ==> IdFree(recs, id, crc))
              else recs == old(recs) && id in draws && IdFree(recs, id, crc)
    {
      if force {
        id := forceId;
        var f := LookupFrec(recs, id, crc);
        if f.Some? {
          Cancel(f.value);
        }
      } else {
        id := DrawId(recs, crc, draws);
      }
    }

    /** The socket to reach a server by: its own, or one that the record has or is given. */
    method TakeSocket(i: nat, family: Family, canOpen: bool) returns (ok: bool)
      requires Sending(i)
      modifies this`recs, this`socks, this`finger
      ensures Going(i, [])
      ensures if ok then SockFor(recs[i], family).Some? else SockFor(recs[i], family).None? && NoSocket(socks, family, canOpen)
    {
      if SockFor(recs[i], family).Some? {
        return true;
      }
      ghost var before := socks;
      var s := AllocateRfd(family, canOpen);
      if s.None? {
        return false;
      }
      UseKeeps(recs, before, ftabsize, i, s.value, family);
      recs := recs[i := WithSock(recs[i], s.value, family)];
      return true;
    }

    /** Server k needs a random socket, the record has none of its family, and none can be had. */
    ghost predicate Lacks(i: nat, k: nat, canOpen: bool)
      requires i < |recs| && k < |servers|
      reads this
    {
      !servers[k].fixedSocket && SockFor(recs[i], servers[k].family).None? && NoSocket(socks, servers[k].family, canOpen)
    }

    /** One server: the query is sent on, or skips it, or there is no socket. */
    method TrySend(i: nat, k: nat, suits: bool, sendOk: bool, canOpen: bool) returns (sent: bool, starved: bool)
      requires Sending(i) && k < |servers|
      modifies this`recs, this`socks, this`finger
      ensures Going(i, if sent then [k] else [])
      ensures if starved then !sent && suits && Lacks(i, k, canOpen) else sent == (suits && sendOk)
    {
      if !suits {
        return false, false;
      }
      if !servers[k].fixedSocket {
        var ok := TakeSocket(i, servers[k].family, canOpen);
        if !ok {
          return false, true;
        }
      }
      if sendOk {
        var r := recs[i].(sentto := Some(k), forwardall := if recs[i].forwardall == 0 then 0 else recs[i].forwardall + 1);
        SentKeeps(recs, socks, ftabsize, i, r);
        recs := recs[i := r];
      }
      return sendOk, false;
    }

    twostate predicate Going(i: nat, sends: seq<nat>)
      reads this
    {
      Sending(i) && |old(recs)| == |recs| && recs == old(recs)[i := recs[i]] && SentOn(old(recs)[i], recs[i], sends)
    }

    /** Since `before`, record i alone has changed, and by being sent to these servers. */
    ghost predicate SentFrom(before: seq<Rec>, i: nat, sends: seq<nat>)
      reads this
    {
      Sending(i) && |before| == |recs| && recs == before[i := recs[i]] && SentOn(before[i], recs[i], sends)
    }

    method AskNext(ghost before: seq<Rec>, i: nat, sends: seq<nat>, k: nat, suits: bool, sendOk: bool, canOpen: bool)
      returns (more: seq<nat>, starved: bool)
      requires SentFrom(before, i, sends) && k < |servers|
      modifies this`recs, this`socks, this`finger
      ensures SentFrom(before, i, more)
      ensures if starved then more == sends && suits && Lacks(i, k, canOpen)
              else more == if suits && sendOk then sends + [k] else sends
    {
      ghost var r := recs[i];
      var sent;
      sent, starved := TrySend(i, k, suits, sendOk, canOpen);
      SentOnFurther(before[i], r, recs[i], sends, if sent then [k] else []);
      more := if sent then sends + [k] else sends;
    }

    /** The loop of forward_query, once round the servers from `start`. */
    method SendAround(i: nat, start: nat, kind: Kind, domain: int, sendOk: seq<bool>, canOpen: bool)
      returns (sends: seq<nat>, starved: bool, ghost at: nat)
      requires Sending(i) && start < |servers| == |sendOk|
      modifies this`recs, this`socks, this`finger
      ensures SentFrom(old(recs), i, sends)
      ensures SendsRight(sends, starved, Targets(Reach(servers, kind, domain, sendOk), start, |servers|), old(recs)[i].forwardall == 0)
      ensures starved ==> at < |servers| && Suits(servers[at], kind, domain) && Lacks(i, at, canOpen)
    {
      sends, starved, at := [], false, 0;
      var j, one := 0, recs[i].forwardall == 0;
      ghost var reach := Reach(servers, kind, domain, sendOk);
      while j < |servers|
        invariant j <= |servers| && SentFrom(old(recs), i, sends)
        invariant Asked(sends, reach, start, j, one) && !starved
      {
        var k := Around(start, j, |servers|);
        AskedOn(sends, reach, start, j, one);
        var was := |sends|;
        at := k;
        sends, starved := AskNext(old(recs), i, sends, k, Suits(servers[k], kind, domain), sendOk[k], canOpen);
        if starved || (|sends| > was && one) {
          break;
        }
        j := j + 1;
      }
    }

    /** The record gets its id and the query; the servers are asked one by one, or all of them. */
    method Prepare(i: nat, q: Query, now: int, order: bool, draws: seq<nat>) returns (start: nat)
      requires Valid() && i < |recs| && !Active(recs[i]) && (!q.signed ==> exists d | d in draws :: IdFree(recs, d, q.crc))
      modifies this
      ensures Sending(i) && Spared(old(recs), recs, i, q) && !Active(recs[i]) && FilledFor(recs[i], q)
      ensures var all := AskAll(q.kind, order, old(lastServer), old(forwardCount), old(forwardTime), now);
              && recs[i].forwardall == (if all then 1 else 0) && start == StartAt(q.kind, order, old(lastServer), all)
              && forwardTime == (if all then now else old(forwardTime)) && lastServer == old(lastServer)
              && forwardCount == if all then 0 else if q.kind == General && !order then old(forwardCount) + 1 else old(forwardCount)
      ensures recs[i].time == old(recs)[i].time
    {
      var id := GetId(q.signed, q.id, q.crc, draws);
      var all := false;
      start := 0;
      if q.kind == General && !order {
        if lastServer.None? {
          all := true;
        } else {
          start := lastServer.value;
          forwardCount := forwardCount + 1;
          all := forwardCount - 1 > FORWARD_TEST || now - forwardTime > FORWARD_TIME;
        }
        if all {
          start, forwardCount, forwardTime := 0, 0, now;
        }
      }
      Fill(i, q, id, all);
    }

    method Fill(i: nat, q: Query, id: nat, all: bool)
      requires Valid() && i < |recs| && !Active(recs[i]) && (q.crc != ALL_ONES ==> IdFree(recs, id, q.crc))
      modifies this`recs
      ensures Sending(i) && recs == old(recs)[i := recs[i]] && !Active(recs[i])
      ensures recs[i] == old(recs)[i].(source := q.source, origId := q.id, newId := id, crc := q.crc, forwardall := if all then 1 else 0)
    {
      var r := recs[i].(source := q.source, origId := q.id, newId := id, crc := q.crc, forwardall := if all then 1 else 0);
      assert RecOk(socks, recs[i]);
      RetimeKeeps(recs, socks, ftabsize, i, r);
      ghost var before := recs;
      recs := recs[i := r];
      forall k | 0 <= k < |recs| && k != i && Active(recs[k]) && q.crc != ALL_ONES
        ensures recs[k].newId != id || recs[k].crc != q.crc
      {
        assert !Answers(before[k], id, q.crc);
      }
      MakingBegins(recs, socks, ftabsize, i);
    }

    /** A record that could not be sent is freed. */
    method Abandon(i: nat)
      requires Sending(i)
      modifies this`recs, this`socks
      ensures Valid() && recs == old(recs)[i := FreedRec(old(recs)[i])]
      ensures SockOk(old(socks), old(recs)[i].rfd4, Inet) && SockOk(old(socks), old(recs)[i].rfd6, Inet6)
              && socks == FreedSocks(old(socks), old(recs)[i])
    {
      MakingFails(recs, socks, ftabsize, i);
      FreeFrec(i);
    }

    /** Sends a record and settles it: it waits for replies, or it is freed. */
    method Send(i: nat, start: nat, kind: Kind, domain: int, sendOk: seq<bool>, canOpen: bool) returns (out: Outcome)
      requires Sending(i) && start < |servers| == |sendOk|
      modifies this`recs, this`socks, this`finger
      ensures Valid() && |recs| == |old(recs)| && recs == old(recs)[i := recs[i]]
      ensures out.Failed? ==> !Active(recs[i])
      ensures out.Forwarded? ==> out.slot == i && out.sends != [] && SentOn(old(recs)[i], recs[i], out.sends)
      ensures AskedRightly(servers, sendOk, kind, domain, start, old(recs)[i].forwardall != 0, out)
      ensures out.starved ==> Starving(servers, kind, domain, socks, canOpen)
    {
      ghost var all := recs[i].forwardall != 0;
      var sends, starved, at := SendAround(i, start, kind, domain, sendOk, canOpen);
      if starved {
        ScarceAfter(socks, recs[i], servers[at].family, canOpen);
      }
      if sends == [] {
        Abandon(i);
        out := Failed(starved);
      } else {
        MakingEnds(recs, socks, ftabsize, i);
        out := Forwarded(i, sends, starved);
      }
      SentRightly(servers, sendOk, kind, domain, start, all, out);
    }

    /** forward_query for a query that is not waiting yet. */
    method NewQuery(q: Query, now: int, order: bool, draws: seq<nat>, sendOk: seq<bool>, canOpen: bool) returns (out: Outcome)
      requires Valid() && |sendOk| == |servers| && (!q.signed ==> exists d | d in draws :: IdFree(recs, d, q.crc))
      modifies this
      ensures Valid() && BystandersKept(old(recs), recs, now, q)
      ensures out.Failed? ==> NoneAdded(old(recs), recs)
      ensures Step(old(recs), recs, if out.Forwarded? then QueryFrom(Client(q.source, q.id)) else Quiet)
      ensures out.Forwarded? ==> servers != [] && out.slot < |recs| && OnlyNew(old(recs), recs, out.slot) && FilledFor(recs[out.slot], q)
                                 && recs[out.slot].time == now
      ensures var all := AskAll(q.kind, order, old(lastServer), old(forwardCount), old(forwardTime), now);
              var start := StartAt(q.kind, order, old(lastServer), all);
              if servers == [] || q.local || Full(old(recs), ftabsize, now) then out == Failed(false)
              else
                && AskedRightly(servers, sendOk, q.kind, q.domain, start, all, out)
                && (out.Forwarded? ==> Waiting(recs[out.slot], out.sends, all))
                && (out.starved ==> Starving(servers, q.kind, q.domain, socks, canOpen))
    {
      FreedStep(recs, recs);
      if servers == [] || q.local {
        return Failed(false);
      }
      ghost var before := recs;
      var i := GetNewFrec(now);
      if i.None? {
        return Failed(false);
      }
      ghost var cleared := recs;
      IdsStayFree(before, cleared, draws, q.crc);
      var start := Prepare(i.value, q, now, order, draws);
      out := Send(i.value, start, q.kind, q.domain, sendOk, canOpen);
      QueryKept(before, cleared, recs, i.value, now, q);
      AskedStep(cleared, recs, i.value, q);
      StepAfterQuiet(before, cleared, recs, if out.Forwarded? then QueryFrom(Client(q.source, q.id)) else Quiet);
    }

    /** A query that waits is about to be sent again; unless the servers have an order, to all of them. */
    method Reopen(i: nat, order: bool)
      requires Valid() && i < |recs| && Active(recs[i])
      modifies this`recs, this`lastServer
      ensures Sending(i) && lastServer == (if order then old(lastServer) else None)
      ensures recs == old(recs)[i := old(recs)[i].(forwardall := if order then old(recs)[i].forwardall else 1)]
    {
      var r := recs[i];
      ActiveNoClash(recs, i);
      MakingBegins(recs, socks, ftabsize, i);
      assert RecOk(socks, r);
      if !order {
        SentKeeps(recs, socks, ftabsize, i, r.(forwardall := 1));
        recs := recs[i := r.(forwardall := 1)];
        lastServer := None;
      }
    }

    /** forward_query for a query that waits already: it goes to all other servers too. */
    method Retry(i: nat, order: bool, sendOk: seq<bool>, canOpen: bool) returns (out: Outcome)
      requires Valid() && i < |recs| && Active(recs[i]) && |sendOk| == |servers|
      modifies this`recs, this`socks, this`finger, this`lastServer
      ensures Valid() && |recs| == |old(recs)| && recs == old(recs)[i := recs[i]]
      ensures lastServer == (if order then old(lastServer) else None) && Step(old(recs), recs, Quiet)
      ensures Retried(old(recs)[i], recs[i], out, servers, order, sendOk) && (out.Forwarded? ==> out.slot == i)
      ensures var s := servers[old(recs)[i].sentto.value]; out.starved ==> Starving(servers, s.kind, s.domain, socks, canOpen)
    {
      var r := recs[i];
      Reopen(i, order);
      var start := if r.sentto.value + 1 < |servers| then r.sentto.value + 1 else 0;
      out := Send(i, start, servers[r.sentto.value].kind, servers[r.sentto.value].domain, sendOk, canOpen);
      WaitingStep(old(recs), i, recs[i]);
    }

    /** What becomes of a new query: refused at once, or sent as it should be and waiting for the right number of replies. */
    twostate predicate NewRightly(q: Query, now: int, order: bool, sendOk: seq<bool>, canOpen: bool, out: Outcome)
      reads this
    {
      if servers == [] || q.local
         || (|old(recs)| > ftabsize && forall k | 0 <= k < |old(recs)| :: Active(old(recs)[k]) && now - old(recs)[k].time < TIMEOUT)
      then out == Failed(false)
      else
        var all := q.kind == General && !order
                   && (old(lastServer).None? || old(forwardCount) > FORWARD_TEST || now - old(forwardTime) > FORWARD_TIME);
        var start := if q.kind == General && !order && !all && old(lastServer).Some? then old(lastServer).value else 0;
        && start < |servers| == |sendOk| && AskedRightly(servers, sendOk, q.kind, q.domain, start, all, out)
        && (out.Forwarded? ==> out.slot < |recs| && Waiting(recs[out.slot], out.sends, all))
        && (out.starved ==> Starving(servers, q.kind, q.domain, socks, canOpen))
    }

    /** What becomes of a query that waits in record i: it goes to the servers behind the last one, for the same kind and domain. */
    twostate predicate RepeatedRightly(i: nat, order: bool, sendOk: seq<bool>, canOpen: bool, out: Outcome)
      requires i < |old(recs)|
      reads this
    {
      var r := old(recs)[i];
      && i < |recs| && Active(r) && r.sentto.value < |servers| == |sendOk| && Retried(r, recs[i], out, servers, order, sendOk)
      && (out.Forwarded? ==> out.slot == i)
      && var s := servers[r.sentto.value]; out.starved ==> Starving(servers, s.kind, s.domain, socks, canOpen)
    }

    /** forward_query for a packet from a client. */
    method ForwardQuery(q: Query, now: int, order: bool, draws: seq<nat>, sendOk: seq<bool>, canOpen: bool) returns (out: Outcome)
      requires Valid() && |sendOk| == |servers| && (!q.signed ==> exists d | d in draws :: IdFree(recs, d, q.crc))
      modifies this
      ensures Valid()
      ensures forall r | r in old(recs) && Active(r) && now - r.time < TIMEOUT && !Asker(r, q)
                         && !(q.signed && Answers(r, q.id, q.crc)) :: r in recs
      ensures out.Forwarded? ==> out.slot < |recs| && Asker(recs[out.slot], q)
      ensures Step(old(recs), recs, ForwardEvent(q, out.Forwarded?, servers != [] && Repeated(old(recs), q)))
      ensures if servers != [] && Repeated(old(recs), q) then
                exists i | 0 <= i < |old(recs)| :: Asker(old(recs)[i], q) && RepeatedRightly(i, order, sendOk, canOpen, out)
              else NewRightly(q, now, order, sendOk, canOpen, out)
    {
      var i := LookupBySender(recs, q.id, q.source, q.crc);
      if servers != [] && i.Some? {
        ghost var before := recs;
        out := Retry(i.value, order, sendOk, canOpen);
        forall r | r in before && !Asker(r, q) ensures r in recs {
          var k :| 0 <= k < |before| && before[k] == r;
          assert recs[k] == r;
        }
        if out.Failed? {
          ToldStep(before, i.value, recs[i.value]);
        }
      } else {
        ghost var before := recs;
        out := NewQuery(q, now, order, draws, sendOk, canOpen);
        if out.Failed? {
          RefusalIsQuiet(before, recs, Client(q.source, q.id));
        }
      }
    }

    method FindServer(addr: int, generalOnly: bool) returns (k: Option<nat>)
      ensures k.Some? ==> k.value < |servers| && IsAt(servers[k.value], addr, generalOnly)
      ensures k.None? ==> forall j | 0 <= j < |servers| :: !IsAt(servers[j], addr, generalOnly)
    {
      for j := 0 to |servers|
        invariant forall m | 0 <= m < j :: !IsAt(servers[m], addr, generalOnly)
      {
        if IsAt(servers[j], addr, generalOnly) {
          return Some(j);
        }
      }
      return None;
    }

    /** The part of reply_query that notes which server is good. */
    method NoteServer(reply: Reply, sentto: nat, allServers: bool)
      requires Valid() && sentto < |servers|
      modifies this`lastServer
      ensures Valid()
      ensures if servers[sentto].kind == General && !allServers then Favourite(servers, reply, sentto, lastServer)
              else lastServer == old(lastServer)
    {
      if servers[sentto].kind == General && !allServers {
        if !reply.good {
          lastServer := None;
        } else {
          var k := FindServer(reply.addr, true);
          lastServer := if k.Some? then k else Some(sentto);
        }
      }
    }

    /** After a reply the favourite is a server that gave a good one. */
    ghost predicate Noted(r: Rec, reply: Reply, order: bool, allServers: bool)
      reads this
    {
      Active(r) && r.sentto.value < |servers| && servers[r.sentto.value].kind == General && !allServers && !TryOthers(r, reply, order)
      ==> Favourite(servers, reply, r.sentto.value, lastServer)
    }

    /** reply_query: a reply is sent to the client that asked, or the record goes on waiting. */
    method ReplyQuery(reply: Reply, usable: bool, order: bool, allServers: bool, sendOk: seq<bool>, canOpen: bool)
      returns (slot: Option<nat>, answer: Option<Answer>, retry: Option<Outcome>)
      requires Valid() && |sendOk| == |servers|
      modifies this`recs, this`socks, this`finger, this`lastServer
      ensures Valid() && |recs| == |old(recs)|
      ensures Step(old(recs), recs, if answer.Some? then AnswerTo(Client(answer.value.dest, answer.value.id)) else Quiet)
      ensures slot.None? ==> recs == old(recs) && answer.None? && lastServer == old(lastServer)
      ensures slot.None? ==> !reply.wellFormed || IdFree(recs, reply.id, reply.crc)
                             || forall k | 0 <= k < |servers| ::
                                  !(servers[k].addr == reply.addr && !servers[k].literal && !servers[k].noAddr)
      ensures slot.Some? ==> reply.wellFormed && exists k | 0 <= k < |servers| ::
                               servers[k].addr == reply.addr && !servers[k].literal && !servers[k].noAddr
      ensures slot.Some? ==> slot.value < |recs| && Answers(old(recs)[slot.value], reply.id, reply.crc)
                             && recs == old(recs)[slot.value := recs[slot.value]]
                             && Replied(old(recs)[slot.value], recs[slot.value], reply, order, usable, answer)
                             && Noted(old(recs)[slot.value], reply, order, allServers)
      ensures retry.Some? <==> slot.Some? && !reply.good && !reply.signed && !order && old(recs)[slot.value].forwardall == 0
      ensures retry.Some? ==> var r := old(recs)[slot.value];
                              Active(r) && r.sentto.value < |servers|
                              && Retried(r, recs[slot.value], retry.value, servers, order, sendOk)
    {
      slot, answer, retry := None, None, None;
      FreedStep(recs, recs);
      var server := FindServer(reply.addr, false);
      if server.None? || !reply.wellFormed {
        return;
      }
      slot := LookupFrec(recs, reply.id, reply.crc);
      if slot.None? {
        return;
      }
      var i := slot.value;
      assert RecOk(socks, recs[i]);
      if TryOthers(recs[i], reply, order) {
        var out := Retry(i, order, sendOk, canOpen);
        retry := Some(out);
        return;
      }
      NoteServer(reply, recs[i].sentto.value, allServers);
      answer := Conclude(i, reply.good, usable);
    }

    /** The end of reply_query: the last reply to wait for, or a good one, goes to the client and frees the record. */
    method Conclude(i: nat, good: bool, usable: bool) returns (answer: Option<Answer>)
      requires Valid() && i < |recs| && Active(recs[i]) && recs[i].forwardall != 1
      modifies this`recs, this`socks
      ensures Valid() && Step(old(recs), recs, if answer.Some? then AnswerTo(Client(answer.value.dest, answer.value.id)) else Quiet)
      ensures if AfterReply(old(recs)[i].forwardall, good).None? then
                && recs == old(recs)[i := FreedRec(old(recs)[i])]
                && answer == if usable then Some(Answer(old(recs)[i].source, old(recs)[i].origId)) else None
              else recs == old(recs)[i := StillWaiting(old(recs)[i], good)] && answer.None?
    {
      answer := None;
      if recs[i].forwardall == 0 || recs[i].forwardall - 1 == 1 || good {
        if usable {
          answer := Some(Answer(recs[i].source, recs[i].origId));
        }
        ToldStep(recs, i, FreedRec(recs[i]));
        WaitingStep(recs, i, FreedRec(recs[i]));
        Cancel(i);
      } else {
        WaitingStep(recs, i, recs[i].(forwardall := recs[i].forwardall - 1));
        StillWaitingKeeps(recs, socks, ftabsize, i, good);
        recs := recs[i := recs[i].(forwardall := recs[i].forwardall - 1)];
      }
    }

    /** server_gone: nothing waits for the server any more, and nothing else changes. */
    method ServerGone(server: nat)
      requires Valid()
      modifies this`recs, this`socks, this`lastServer
      ensures Valid() && lastServer == (if old(lastServer) == Some(server) then None else old(lastServer))
      ensures |recs| == |old(recs)| && forall k | 0 <= k < |recs| :: recs[k] == Gone(old(recs)[k], server)
      ensures Step(old(recs), recs, Quiet)
    {
      for j := 0 to |recs|
        invariant Valid() && |recs| == |old(recs)| && lastServer == old(lastServer)
        invariant forall k | 0 <= k < |recs| :: recs[k] == if k < j then Gone(old(recs)[k], server) else old(recs)[k]
      {
        if recs[j].sentto == Some(server) {
          Cancel(j);
        }
      }
      FreedStep(old(recs), recs);
      if lastServer == Some(server) {
        lastServer := None;
      }
    }
  }
}
