/**
  What cache_insert in external/dnsmasq/src/cache.c leaves in the hash chains, told by flags, folded names and addresses
  alone: nothing that contradicts the new record, and everything that it had no reason to remove.
 */
module CacheClears {
  import opened Options
  import opened Lists
  import opened CacheState
  import opened CacheLookup
  import opened CacheInsert
  import opened CacheSweep
  import opened CacheRoom

  /** Two forward records of one name cannot both be right: they tell addresses of one family, or one of them is an alias. */
  predicate Rivals(a: set<Flag>, b: set<Flag>) {
    Cname in a || Cname in b || (IPv4 in a && IPv4 in b) || (IPv6 in a && IPv6 in b)
  }

  /** A record in the way of one with these contents: a rival of its name, or a pooled one that names its address. */
  predicate InTheWay(name: string, addr: seq<int>, flags: set<Flag>, r: Rec) {
    if Forward in flags then Forward in r.flags && Lower(r.name) == Lower(name) && Rivals(flags, r.flags)
    else
      && Reverse in flags && Reverse in r.flags && r.addr == addr && Hosts !in r.flags && Dhcp !in r.flags
      && ((IPv4 in flags && IPv4 in r.flags) || (IPv6 in flags && IPv6 in r.flags))
  }

  /** No record of any chain is in the way of the new one. */
  ghost predicate WayClear(s: State, e: Entry) {
    forall c, x | 0 <= c < |s.table| && x in s.table[c] && x in s.recs :: !InTheWay(e.name, AddrOf(e.addr), e.flags, s.recs[x])
  }

  ghost function ClearFor(e: Entry): State -> bool {
    s => WayClear(s, e)
  }

  lemma SharedFamily(a: set<Flag>, b: set<Flag>)
    ensures a * b * {IPv4, IPv6} != {} <==> (IPv4 in a && IPv4 in b) || (IPv6 in a && IPv6 in b)
  {
    assert IPv4 in a * b * {IPv4, IPv6} <==> IPv4 in a && IPv4 in b;
    assert IPv6 in a * b * {IPv4, IPv6} <==> IPv6 in a && IPv6 in b;
    assert forall x | x in a * b * {IPv4, IPv6} :: x == IPv4 || x == IPv6;
  }

  lemma ReplacesMeans(r: Rec, name: string, addr: seq<int>, flags: set<Flag>)
    requires Forward in flags
    ensures Replaces(r, name, flags - {Config}) <==> InTheWay(name, addr, flags, r)
  {
    SharedFamily(flags - {Config}, r.flags);
  }

  lemma StaleMeans(r: Rec, name: string, addr: seq<int>, now: int, flags: set<Flag>)
    requires Forward !in flags
    ensures InTheWay(name, addr, flags, r) ==> Stale(addr, now, flags - {Config})(r)
  {
    SharedFamily(flags - {Config}, r.flags);
  }

  /** A sweep of a name that does not stop leaves no rival of it, neither pooled nor of a hosts file. */
  lemma NameSweepClears(f: Fixed, s: State, name: string, now: int, flags: set<Flag>, i: nat)
    requires Inv(f, s) && NameFree(f, s, name, now, flags) && Forward in flags && i < |s.table[Bucket(f.mix, |s.table|, name)]|
    requires var b := Bucket(f.mix, |s.table|, name);
             s.table[b][i] in SweepOf(s.recs, NameJudge(s.recs, name, now, flags), s.table[b]).p.kept
    ensures var b := Bucket(f.mix, |s.table|, name); !Replaces(s.recs[s.table[b][i]], name, flags)
  {
    var b := Bucket(f.mix, |s.table|, name);
    var chain := s.table[b];
    assert ChainOk(f, s.recs, |s.table|, chain, b);
    NameSweepExact(s.recs, name, now, flags, chain);
    StopsSomewhere(s.recs, name, now, flags, chain, i);
    assert !DropsAt(s.recs, name, now, flags, chain, i) && !StopsAt(s.recs, name, now, flags, chain, i);
  }

  /** After the first scan of an insert that may go on, nothing is in the way. */
  lemma ScanClearsAt(f: Fixed, s: State, t: State, e: Entry, now: int, c: nat, x: Id)
    requires Inv(f, s) && ScanFreed(f, s, t, e.name, AddrOf(e.addr), now, e.flags - {Config})
    requires NameFree(f, s, e.name, now, e.flags - {Config}) && c < |t.table| && x in t.table[c] && x in t.recs
    ensures !InTheWay(e.name, AddrOf(e.addr), e.flags, t.recs[x])
  {
    var plain, b := e.flags - {Config}, Bucket(f.mix, |s.table|, e.name);
    ScanThins(f, s, t, e.name, AddrOf(e.addr), now, plain);
    assert ThinnedAt(s, t, now, Victim(e.name, AddrOf(e.addr), plain), c, x);
    if Forward in plain {
      ReplacesMeans(s.recs[x], e.name, AddrOf(e.addr), e.flags);
      if c == b {
        ClearedChain(f, s, t, e, now, x);
      } else {
        assert ChainOk(f, s.recs, |s.table|, s.table[c], c);
      }
    } else {
      StaleMeans(s.recs[x], e.name, AddrOf(e.addr), now, e.flags);
      assert SweptAt(s, t, |s.table|, Stale(AddrOf(e.addr), now, plain), c);
    }
  }

  lemma ClearedChain(f: Fixed, s: State, t: State, e: Entry, now: int, x: Id)
    requires Inv(f, s) && ScanFreed(f, s, t, e.name, AddrOf(e.addr), now, e.flags - {Config}) && Forward in e.flags
    requires NameFree(f, s, e.name, now, e.flags - {Config}) && x in t.table[Bucket(f.mix, |s.table|, e.name)] && x in s.recs
    ensures !Replaces(s.recs[x], e.name, e.flags - {Config})
  {
    var plain, b := e.flags - {Config}, Bucket(f.mix, |s.table|, e.name);
    var w := SweepOf(s.recs, NameJudge(s.recs, e.name, now, plain), s.table[b]);
    assert t.table[b] == w.p.kept + [] == w.p.kept;
    KeptSeen(s.recs, NameJudge(s.recs, e.name, now, plain), s.table[b]);
    var i :| 0 <= i < |s.table[b]| && s.table[b][i] == x;
    NameSweepClears(f, s, e.name, now, plain, i);
  }

  /** Where records only leave, a clear way stays clear. */
  lemma StaysClear(f: Fixed, s: State, t: State, e: Entry, now: int, why: Rec -> bool)
    requires ClearFor(e)(s) && ThinnedFrom(f, s, now, why)(t)
    ensures ClearFor(e)(t)
  {
    forall c, x | 0 <= c < |t.table| && x in t.table[c] && x in t.recs ensures !InTheWay(e.name, AddrOf(e.addr), e.flags, t.recs[x]) {
      assert ThinnedAt(s, t, now, why, c, x);
    }
  }

  lemma ScanClears(f: Fixed, s: State, t: State, e: Entry, now: int)
    requires Inv(f, s) && ScanFreed(f, s, t, e.name, AddrOf(e.addr), now, e.flags - {Config})
    requires NameFree(f, s, e.name, now, e.flags - {Config})
    ensures ClearFor(e)(t)
  {
    forall c, x | 0 <= c < |t.table| && x in t.table[c] && x in t.recs ensures !InTheWay(e.name, AddrOf(e.addr), e.flags, t.recs[x]) {
      ScanClearsAt(f, s, t, e, now, c, x);
    }
  }

  /** A record that was taken for the new contents is alone: the chains hold nothing that contradicts it. */
  lemma InsertionClears(f: Fixed, s: State, t: State, e: Entry, now: int, alloc: bool, found: bool, id: Option<Id>, m: Steps)
    requires Inv(f, s) && RoomFrom(f, s, e, now, found, m)(m.room) && TookFrom(m.room, e, now, alloc, found, id)(t) && id.Some?
    ensures ClearFor(e)(t)
  {
    ScanClears(f, s, m.mid, e, now);
    var why := SpillReason(m.mid, MustSpill(m.mid, now, Reverse in e.flags));
    ThinnedIfTaken(f, m.mid, m.room, t, e, now, alloc, found, id, why);
    StaysClear(f, m.mid, t, e, now, why);
  }

  /** A rival of the new record in a hosts file or a lease, that has not expired. */
  predicate Holds(e: Entry, now: int, r: Rec) {
    && (Hosts in r.flags || Dhcp in r.flags) && (Immortal in r.flags || now < r.ttd)
    && Forward in r.flags && Lower(r.name) == Lower(e.name) && Rivals(e.flags, r.flags)
  }

  /** An insert of a name is refused only for such a rival, and always for one, unless that is an alias. */
  lemma NameRefused(f: Fixed, s: State, e: Entry, now: int)
    requires Inv(f, s) && Forward in e.flags
    ensures var chain := s.table[Bucket(f.mix, |s.table|, e.name)];
            && AllIn(s.recs, chain)
            && (!NameFree(f, s, e.name, now, e.flags - {Config}) ==> exists x | x in chain :: Holds(e, now, s.recs[x]))
            && (NameFree(f, s, e.name, now, e.flags - {Config}) ==> forall x | x in chain :: Holds(e, now, s.recs[x]) ==> Cname in s.recs[x].flags)
  {
    var plain, b := e.flags - {Config}, Bucket(f.mix, |s.table|, e.name);
    var chain := s.table[b];
    assert ChainOk(f, s.recs, |s.table|, chain, b);
    NameSweepExact(s.recs, e.name, now, plain, chain);
    forall x | x in chain ensures Replaces(s.recs[x], e.name, plain) <==> InTheWay(e.name, AddrOf(e.addr), e.flags, s.recs[x]) {
      ReplacesMeans(s.recs[x], e.name, AddrOf(e.addr), e.flags);
    }
    if NameFree(f, s, e.name, now, plain) {
      forall x | x in chain && Holds(e, now, s.recs[x]) ensures Cname in s.recs[x].flags {
        var i :| 0 <= i < |chain| && chain[i] == x;
        StopsSomewhere(s.recs, e.name, now, plain, chain, i);
        assert !StopsAt(s.recs, e.name, now, plain, chain, i);
      }
    } else {
      var i :| 0 <= i < |chain| && StopsAt(s.recs, e.name, now, plain, chain, i);
      assert chain[i] in chain && Holds(e, now, s.recs[chain[i]]);
    }
  }

  /** Why an insert may take a record out of its chain. */
  ghost predicate Leaves(s: State, t: State, e: Entry, now: int, m: Steps, x: Id)
    requires x in s.recs
  {
    var r := s.recs[x];
    || (Immortal !in r.flags && now >= r.ttd)
    || (Cname in r.flags && (r.target.None? || r.target.value !in t.recs || t.recs[r.target.value].uid != r.targetUid))
    || (Hosts !in r.flags && Dhcp !in r.flags && InTheWay(e.name, AddrOf(e.addr), e.flags, r))
    || (Hosts !in r.flags && Dhcp !in r.flags && m.mid.lru != []
        && var tail := m.mid.lru[|m.mid.lru| - 1];
           && tail in m.mid.recs && (forall y | y in m.mid.lru :: y in m.mid.recs && InUse(m.mid.recs[y]))
           && InTheWay(m.mid.recs[tail].name, m.mid.recs[tail].addr, m.mid.recs[tail].flags, r))
  }

  lemma VictimMeans(r: Rec, name: string, addr: seq<int>, flags: set<Flag>)
    ensures Victim(name, addr, flags)(r) ==> Hosts !in r.flags && Dhcp !in r.flags && InTheWay(name, addr, flags, r)
  {
    SharedFamily(flags, r.flags);
  }

  /** The tail is thrown out only of a list on which every record is in use. */
  lemma SpillMeans(f: Fixed, mid: State, now: int, swept: bool, r: Rec)
    requires Inv(f, mid) && MustSpill(mid, now, swept) && mid.lru[|mid.lru| - 1] in mid.recs && SpillReason(mid, true)(r)
    ensures var tail := mid.recs[mid.lru[|mid.lru| - 1]];
            && Hosts !in r.flags && Dhcp !in r.flags && InTheWay(tail.name, tail.addr, tail.flags, r)
            && forall y | y in mid.lru :: y in mid.recs && InUse(mid.recs[y])
  {
    var tail := mid.recs[mid.lru[|mid.lru| - 1]];
    VictimMeans(r, tail.name, tail.addr, tail.flags);
    TailIsFree(f, mid);
  }

  lemma ReasonMeans(f: Fixed, s: State, t: State, e: Entry, now: int, m: Steps, x: Id)
    requires Inv(f, m.mid) && x in s.recs
    requires MustSpill(m.mid, now, Reverse in e.flags) ==> m.mid.lru[|m.mid.lru| - 1] in m.mid.recs
    requires InsertReason(f, s, e, now, m.mid)(s.recs[x])
    ensures Leaves(s, t, e, now, m, x)
  {
    var r, spilled := s.recs[x], NameFree(f, s, e.name, now, e.flags - {Config}) && MustSpill(m.mid, now, Reverse in e.flags);
    VictimMeans(r, e.name, AddrOf(e.addr), e.flags - {Config});
    if spilled && SpillReason(m.mid, true)(r) {
      SpillMeans(f, m.mid, now, Reverse in e.flags, r);
    }
  }

  lemma ThinnedMeans(f: Fixed, s: State, t: State, e: Entry, now: int, m: Steps, c: nat, x: Id)
    requires Inv(f, m.mid) && (MustSpill(m.mid, now, Reverse in e.flags) ==> m.mid.lru[|m.mid.lru| - 1] in m.mid.recs)
    requires c < |s.table| == |t.table| && x in s.table[c] && x !in t.table[c] && x in s.recs
    requires ThinnedAt(s, t, now, InsertReason(f, s, e, now, m.mid), c, x)
    ensures Leaves(s, t, e, now, m, x)
  {
    if InsertReason(f, s, e, now, m.mid)(s.recs[x]) {
      ReasonMeans(f, s, t, e, now, m, x);
    }
  }

  /**
    A record leaves its chain only if it has expired, is an alias of a record that was freed, is a pooled one in the way
    of the new record, or is a pooled one in the way of the tail of a full list.
   */
  lemma InsertionSpares(f: Fixed, s: State, t: State, e: Entry, now: int, alloc: bool, found: bool, id: Option<Id>, m: Steps, c: nat, x: Id)
    requires Inv(f, s) && RoomFrom(f, s, e, now, found, m)(m.room) && TookFrom(m.room, e, now, alloc, found, id)(t)
    requires c < |s.table| == |t.table| && x in s.table[c] && x !in t.table[c] && x in s.recs
    ensures Leaves(s, t, e, now, m, x)
  {
    InsertionThins(f, s, t, e, now, alloc, found, id, m);
    assert ThinnedAt(s, t, now, InsertReason(f, s, e, now, m.mid), c, x);
    ThinnedMeans(f, s, t, e, now, m, c, x);
  }
}
