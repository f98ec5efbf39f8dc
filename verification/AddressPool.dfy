/**
  Choosing an address for a DHCP client (external/dnsmasq/src/dhcp.c, address_allocate; section 4.3.1 of RFC 2131).
  Addresses are 32-bit numbers in host order. Whether an address answers a ping is given.
 */
module AddressPool {
  import opened Options

  const WORD: nat := 0x1_0000_0000
  const PING_CACHE_TIME := 30
  const PING_WAIT := 3
  /** 60% of the pings that fit into the time for which results are kept. */
  const MAX_PINGS: nat := 6 * (PING_CACHE_TIME / PING_WAIT) / 10

  /** A range of addresses on the network of the client; a static one gives out no addresses. */
  datatype Context = Context(start: nat, end: nat, isStatic: bool, filter: seq<string>, router: nat)

  datatype Config = Config(hasAddr: bool, addr: nat)

  datatype Ping = Ping(addr: nat, time: int)

  /** What is known of the network during one search. */
  datatype World = World(leased: set<nat>, configs: seq<Config>, alive: set<nat>, noPing: bool, now: int)

  predicate ContextOk(c: Context) {
    c.start <= c.end < WORD && c.end - c.start + 1 < WORD
  }

  function Size(c: Context): int {
    c.end - c.start + 1
  }

  // ----- tags -----

  predicate TagHolds(tag: string, pool: seq<string>) {
    if tag != [] && tag[0] == '#' then tag[1..] !in pool else tag in pool
  }

  predicate Matches(check: seq<string>, pool: seq<string>, tagNotNeeded: bool) {
    (check != [] || tagNotNeeded) && forall t | t in check :: TagHolds(t, pool)
  }

  method InPool(tag: string, pool: seq<string>) returns (found: bool)
    ensures found <==> tag in pool
  {
    for k := 0 to |pool|
      invariant tag !in pool[..k]
    {
      if pool[k] == tag {
        return true;
      }
    }
    return false;
  }

  /** match_netid */
  method MatchNetid(check: seq<string>, pool: seq<string>, tagNotNeeded: bool) returns (ok: bool)
    ensures ok <==> Matches(check, pool, tagNotNeeded)
  {
    if check == [] && !tagNotNeeded {
      return false;
    }
    for k := 0 to |check|
      invariant forall j | 0 <= j < k :: TagHolds(check[j], pool)
    {
      var negated := check[k] != [] && check[k][0] == '#';
      var found := InPool(if negated then check[k][1..] else check[k], pool);
      if found == negated {
        assert !TagHolds(check[k], pool);
        return false;
      }
    }
    return true;
  }

  // ----- addresses that may be given out -----

  predicate Reserved(configs: seq<Config>, addr: nat) {
    exists k | 0 <= k < |configs| :: configs[k].hasAddr && configs[k].addr == addr
  }

  /** config_find_by_address */
  method ConfigFindByAddress(configs: seq<Config>, addr: nat) returns (found: bool)
    ensures found <==> Reserved(configs, addr)
  {
    for k := 0 to |configs|
      invariant forall j | 0 <= j < k :: !(configs[j].hasAddr && configs[j].addr == addr)
    {
      if configs[k].hasAddr && configs[k].addr == addr {
        return true;
      }
    }
    return false;
  }

  predicate IsRouter(contexts: seq<Context>, addr: nat) {
    exists k | 0 <= k < |contexts| :: contexts[k].router == addr
  }

  /** Addresses of class C that end in .0 or .255 do not work for some clients. */
  predicate Awkward(addr: nat) {
    addr / 0x2000_0000 == 6 && (addr % 256 == 0 || addr % 256 == 255)
  }

  /** The addresses of class C that end in 0 or 255. */
  lemma AwkwardMeans(a: nat, b: nat, c: nat, d: nat)
    requires a < 256 && b < 256 && c < 256 && d < 256
    ensures Awkward(((a * 256 + b) * 256 + c) * 256 + d) <==> 192 <= a <= 223 && (d == 0 || d == 255)
  {
    var addr := ((a * 256 + b) * 256 + c) * 256 + d;
    assert addr % 256 == d;
    assert addr / 0x2000_0000 == a / 32;
  }

  predicate Free(contexts: seq<Context>, w: World, addr: nat) {
    !IsRouter(contexts, addr) && addr !in w.leased && !Reserved(w.configs, addr) && !Awkward(addr)
  }

  // ----- results of pings -----

  predicate Recent(p: Ping, now: int) {
    now - p.time <= PING_CACHE_TIME
  }

  function RecentCount(pings: seq<Ping>, now: int): (n: nat)
    ensures n <= |pings|
  {
    if pings == [] then 0 else RecentCount(pings[..|pings| - 1], now) + if Recent(pings[|pings| - 1], now) then 1 else 0
  }

  lemma {:induction false} RecentGrows(pings: seq<Ping>, now: int, k: nat)
    requires k <= |pings|
    ensures RecentCount(pings[..k], now) <= RecentCount(pings, now)
    ensures (forall j | k <= j < |pings| :: !Recent(pings[j], now)) ==> RecentCount(pings[..k], now) == RecentCount(pings, now)
  {
    if k == |pings| {
      assert pings[..k] == pings;
    } else {
      var shorter := pings[..|pings| - 1];
      assert shorter[..k] == pings[..k];
      RecentGrows(shorter, now, k);
    }
  }

  lemma {:induction false} AllRecent(pings: seq<Ping>, now: int)
    requires forall k | 0 <= k < |pings| :: Recent(pings[k], now)
    ensures RecentCount(pings, now) == |pings|
  {
    if pings != [] {
      AllRecent(pings[..|pings| - 1], now);
    }
  }

  /** No ping is needed: there was one for this address lately, or there were too many. */
  predicate Trusted(pings: seq<Ping>, now: int, addr: nat) {
    (exists k | 0 <= k < |pings| :: Recent(pings[k], now) && pings[k].addr == addr) || RecentCount(pings, now) >= MAX_PINGS
  }

  /** The loop over the results of pings; if a ping is needed, `victim` is an old result to overwrite, if there is one. */
  method CheckPings(pings: seq<Ping>, now: int, addr: nat) returns (trusted: bool, victim: Option<nat>)
    ensures trusted <==> Trusted(pings, now, addr)
    ensures !trusted && victim.Some? ==> victim.value < |pings| && !Recent(pings[victim.value], now)
    ensures !trusted && victim.None? ==> |pings| < MAX_PINGS && forall k | 0 <= k < |pings| :: Recent(pings[k], now)
  {
    var count: nat := 0;
    victim := None;
    for k := 0 to |pings|
      invariant count == RecentCount(pings[..k], now) < MAX_PINGS
      invariant forall j | 0 <= j < k :: !(Recent(pings[j], now) && pings[j].addr == addr)
      invariant victim.Some? ==> victim.value < k && !Recent(pings[victim.value], now)
      invariant victim.None? ==> forall j | 0 <= j < k :: Recent(pings[j], now)
    {
      assert pings[..k + 1][..k] == pings[..k];
      if now - pings[k].time > PING_CACHE_TIME {
        victim := Some(k);
      } else {
        count := count + 1;
        if count == MAX_PINGS || pings[k].addr == addr {
          RecentGrows(pings, now, k + 1);
          return true, None;
        }
      }
    }
    assert pings[..|pings|] == pings;
    if victim.None? {
      AllRecent(pings, now);
    }
    return false, victim;
  }

  /** An address that the search takes: nothing speaks against it and it does not answer a ping that is needed. */
  predicate Good(contexts: seq<Context>, pings: seq<Ping>, w: World, addr: nat) {
    Free(contexts, w, addr) && (w.noPing || Trusted(pings, w.now, addr) || addr !in w.alive)
  }

  /** An address that would do but is in use by somebody who was not told of: it answers the ping. */
  predicate Taken(contexts: seq<Context>, pings: seq<Ping>, w: World, addr: nat) {
    Free(contexts, w, addr) && !Good(contexts, pings, w, addr)
  }

  // ----- the place where the search starts -----

  function Sum(hw: seq<nat>): nat {
    if hw == [] then 0 else Sum(hw[..|hw| - 1]) + hw[|hw| - 1]
  }

  /** The hash of a hardware address is the sum of its bytes in three places. */
  method HashHw(hw: seq<nat>) returns (j: nat)
    requires forall k | 0 <= k < |hw| :: hw[k] < 256
    ensures j == Sum(hw) * 0x01_0101 % WORD
  {
    j := 0;
    for i := 0 to |hw|
      invariant j == Sum(hw[..i]) * 0x01_0101 % WORD
    {
      assert hw[..i + 1][..i] == hw[..i];
      j := (j + hw[i] + hw[i] * 0x100 + hw[i] * 0x1_0000) % WORD;
    }
    assert hw[..|hw|] == hw;
  }

  /** The t-th address of the search that starts at `seed`. */
  function Ring(c: Context, seed: nat, t: nat): (a: nat)
    requires c.start <= seed <= c.end && t < Size(c)
    ensures c.start <= a <= c.end
  {
    if seed + t <= c.end then seed + t else seed + t - Size(c)
  }

  /** The next address to try: 32-bit, and back to the start after the end. */
  function Next(c: Context, a: nat): nat {
    if (a + 1) % WORD == (c.end + 1) % WORD then c.start else (a + 1) % WORD
  }

  /** The search comes back to where it started after as many steps as there are addresses, and not before. */
  lemma NextInRing(c: Context, seed: nat, t: nat)
    requires ContextOk(c) && c.start <= seed <= c.end && t < Size(c)
    ensures var a := Next(c, Ring(c, seed, t));
            if t + 1 < Size(c) then a == Ring(c, seed, t + 1) != seed else a == seed
  {}

  /** Once round the range, the search meets every address. */
  lemma RingCovers(c: Context, seed: nat, addr: nat)
    requires c.start <= seed <= c.end && c.start <= addr <= c.end
    ensures exists t: nat | t < Size(c) :: Ring(c, seed, t) == addr
  {
    var t := if addr >= seed then addr - seed else addr + Size(c) - seed;
    assert Ring(c, seed, t) == addr;
  }

  function TakenCount(contexts: seq<Context>, pings: seq<Ping>, w: World, c: Context, seed: nat, t: nat): nat
    requires c.start <= seed <= c.end && t <= Size(c)
  {
    if t == 0 then 0
    else TakenCount(contexts, pings, w, c, seed, t - 1) + if Taken(contexts, pings, w, Ring(c, seed, t - 1)) then 1 else 0
  }

  /** The first t addresses were no good, and the epoch has counted those that answered. */
  predicate Searched(contexts: seq<Context>, pings: seq<Ping>, w: World, c: Context, seed: nat, t: nat, before: nat, after: nat) {
    && c.start <= seed <= c.end && t <= Size(c) && after == before + TakenCount(contexts, pings, w, c, seed, t)
    && forall s: nat | s < t :: !Good(contexts, pings, w, Ring(c, seed, s))
  }

  predicate Eligible(c: Context, netids: seq<string>, pass: nat) {
    !c.isStatic && Matches(c.filter, netids, pass == 1)
  }

  /** A context has nothing to give. */
  predicate Exhausted(contexts: seq<Context>, pings: seq<Ping>, w: World, c: Context) {
    forall a | c.start <= a <= c.end :: !Good(contexts, pings, w, a)
  }

  predicate PassExhausted(contexts: seq<Context>, pings: seq<Ping>, w: World, netids: seq<string>, pass: nat, n: nat)
    requires n <= |contexts|
  {
    forall k | 0 <= k < n && Eligible(contexts[k], netids, pass) :: Exhausted(contexts, pings, w, contexts[k])
  }

  class Allocator {
    const contexts: seq<Context>
    var epochs: seq<nat>
    var pings: seq<Ping>

    /** The results of pings never grow beyond the number that puts an end to pinging. */
    ghost predicate Valid()
      reads this
    {
      && |epochs| == |contexts| && |pings| <= MAX_PINGS
      && forall k | 0 <= k < |contexts| :: ContextOk(contexts[k])
    }

    constructor (contexts: seq<Context>)
      requires forall k | 0 <= k < |contexts| :: ContextOk(contexts[k])
      ensures Valid() && this.contexts == contexts && pings == []
    {
      this.contexts, epochs, pings := contexts, seq(|contexts|, _ => 0), [];
    }

    method RouterOf(addr: nat) returns (found: bool)
      ensures found <==> IsRouter(contexts, addr)
    {
      for k := 0 to |contexts|
        invariant forall j | 0 <= j < k :: contexts[j].router != addr
      {
        if contexts[k].router == addr {
          return true;
        }
      }
      return false;
    }

    /** One address: it is taken, with a note of the ping if there was one, or it is not. */
    method TryAddress(w: World, addr: nat) returns (good: bool, answered: bool)
      requires Valid()
      modifies this`pings
      ensures Valid() && good == Good(contexts, old(pings), w, addr) && answered == Taken(contexts, old(pings), w, addr)
      ensures PingsAfter(old(pings), pings, w, if good then Some(addr) else None)
    {
      var router := RouterOf(addr);
      var reserved := ConfigFindByAddress(w.configs, addr);
      if router || addr in w.leased || reserved || Awkward(addr) {
        return false, false;
      }
      if w.noPing {
        return true, false;
      }
      var trusted, victim := CheckPings(pings, w.now, addr);
      if trusted {
        return true, false;
      }
      if addr in w.alive {
        return false, true;
      }
      if victim.None? {
        pings := [Ping(addr, w.now)] + pings;
      } else {
        pings := pings[victim.value := Ping(addr, w.now)];
      }
      return true, false;
    }

    /** The search of one range, once round from a place that depends on the client: `tried` addresses were no good. */
    method SearchContext(k: nat, j: nat, w: World) returns (addr: Option<nat>, ghost tried: nat)
      requires Valid() && k < |contexts|
      modifies this
      ensures Valid() && |epochs| == |old(epochs)| && epochs == old(epochs)[k := epochs[k]]
      ensures addr.None? ==> pings == old(pings) && Exhausted(contexts, pings, w, contexts[k])
      ensures addr.Some? ==> contexts[k].start <= addr.value <= contexts[k].end && Good(contexts, old(pings), w, addr.value)
      ensures PingsAfter(old(pings), pings, w, addr)
      ensures tried <= Size(contexts[k]) && (addr.None? ==> tried == Size(contexts[k]))
      ensures var c, seed := contexts[k], Seed(contexts[k], j, old(epochs)[k]);
              && (addr.Some? ==> tried < Size(c) && addr.value == Ring(c, seed, tried))
              && forall t: nat | t < tried :: !Good(contexts, old(pings), w, Ring(c, seed, t))
      ensures epochs[k] == old(epochs)[k] + TakenCount(contexts, old(pings), w, contexts[k], Seed(contexts[k], j, old(epochs)[k]), tried)
    {
      var c := contexts[k];
      var start := Seed(c, j, epochs[k]);
      var a, more := start, true;
      tried := 0;
      while more
        invariant Valid() && |epochs| == |old(epochs)| && epochs == old(epochs)[k := epochs[k]] && pings == old(pings)
        invariant Searched(contexts, pings, w, c, start, tried, old(epochs)[k], epochs[k])
        invariant more <==> tried < Size(c)
        invariant more ==> a == Ring(c, start, tried)
        decreases Size(c) - tried
      {
        var good, answered := TryAddress(w, a);
        if good {
          return Some(a), tried;
        }
        if answered {
          epochs := epochs[k := epochs[k] + 1];
        }
        tried := tried + 1;
        NextInRing(c, start, tried - 1);
        a := Next(c, a);
        more := a != start;
      }
      forall x | c.start <= x <= c.end ensures !Good(contexts, pings, w, x) {
        RingCovers(c, start, x);
      }
      return None, tried;
    }

    /** address_allocate: tagged ranges first, then all of them. */
    method AddressAllocate(hw: seq<nat>, netids: seq<string>, w: World) returns (addr: Option<nat>, ghost pass: nat, ghost k: nat)
      requires Valid() && forall i | 0 <= i < |hw| :: hw[i] < 256
      modifies this
      ensures Valid() && PingsAfter(old(pings), pings, w, addr)
      ensures addr.Some? ==>
                && pass <= 1 && k < |contexts| && Eligible(contexts[k], netids, pass)
                && contexts[k].start <= addr.value <= contexts[k].end && Good(contexts, old(pings), w, addr.value)
                && PassExhausted(contexts, old(pings), w, netids, pass, k)
                && (pass == 1 ==> PassExhausted(contexts, old(pings), w, netids, 0, |contexts|))
      ensures addr.None? ==> pings == old(pings) && PassExhausted(contexts, pings, w, netids, 1, |contexts|)
    {
      var j := HashHw(hw);
      addr, k := SearchPass(0, j, netids, w);
      pass := 0;
      if addr.None? {
        addr, k := SearchPass(1, j, netids, w);
        pass := 1;
      }
    }

    method SearchPass(pass: nat, j: nat, netids: seq<string>, w: World) returns (addr: Option<nat>, ghost k: nat)
      requires Valid() && pass <= 1
      modifies this
      ensures Valid() && PingsAfter(old(pings), pings, w, addr)
      ensures addr.None? ==> pings == old(pings) && PassExhausted(contexts, pings, w, netids, pass, |contexts|)
      ensures addr.Some? ==> k < |contexts| && Eligible(contexts[k], netids, pass)
                             && contexts[k].start <= addr.value <= contexts[k].end && Good(contexts, old(pings), w, addr.value)
                             && PassExhausted(contexts, old(pings), w, netids, pass, k)
    {
      for i := 0 to |contexts|
        invariant Valid() && pings == old(pings) && PassExhausted(contexts, pings, w, netids, pass, i)
      {
        var ok := MatchNetid(contexts[i].filter, netids, pass == 1);
        if !contexts[i].isStatic && ok {
          ghost var tried;
          addr, tried := SearchContext(i, j, w);
          if addr.Some? {
            k := i;
            return;
          }
        }
      }
      return None, 0;
    }
  }

  function Seed(c: Context, j: nat, epoch: nat): (a: nat)
    requires c.start <= c.end
    ensures c.start <= a <= c.end
  {
    c.start + (j + epoch) % WORD % Size(c)
  }

  /** The search goes up from a place that depends on the client, and from the end of the range back to its beginning. */
  lemma RingIs(c: Context, j: nat, epoch: nat, t: nat)
    requires c.start <= c.end && t < Size(c)
    ensures var first := (j + epoch) % 0x1_0000_0000 % (c.end - c.start + 1);
            Ring(c, Seed(c, j, epoch), t)
            == if first + t <= c.end - c.start then c.start + first + t else c.start + first + t - (c.end - c.start + 1)
  {}

  /** A new result of a ping, in place of an old one or in front. */
  predicate Noted(before: seq<Ping>, after: seq<Ping>, addr: nat, now: int) {
    if forall v | 0 <= v < |before| :: Recent(before[v], now) then after == [Ping(addr, now)] + before
    else exists v | 0 <= v < |before| :: !Recent(before[v], now) && after == before[v := Ping(addr, now)]
  }

  /** A ping that was not answered is noted; nothing else is. */
  predicate PingsAfter(before: seq<Ping>, after: seq<Ping>, w: World, addr: Option<nat>) {
    if addr.Some? && !w.noPing && !Trusted(before, w.now, addr.value) then Noted(before, after, addr.value, w.now) else after == before
  }
}
