/**
  DHCP leases and the events that tell a script about them (external/dnsmasq/src/lease.c), with unqualified
  names: what a listener who follows the events believes, and how that belief catches up with the table.
  Names are kept folded to lower case, as they are compared without regard to case.
 */
module LeaseScripts {
  import opened Options
  import opened Lists

  type Name = string

  /** A lease; `lost` is a name it had and of whose loss the script has not been told. */
  datatype Lease = Lease(id: nat, hostname: Option<Name>, lost: Option<Name>, auth: bool, isNew: bool, changed: bool,
                         aux: bool, expires: int, iface: int)

  /** The leases, those that have ended but of which the script has not been told, and how many more there may be. */
  datatype Table = Table(leases: seq<Lease>, gone: seq<Lease>, left: nat)

  datatype Event = Add(id: nat, name: Option<Name>) | Old(id: nat, name: Option<Name>) | OldHostname(id: nat, was: Name)
                 | Del(id: nat, name: Option<Name>)

  /** What the listener believes: which leases there are, and their names. */
  type View = map<nat, Option<Name>>

  /** Being told of an old hostname means that the lease now has none. */
  function See(view: View, e: Event): View {
    match e
    case Add(id, name) => view[id := name]
    case Old(id, name) => view[id := name]
    case OldHostname(id, _) => view[id := None]
    case Del(id, _) => view - {id}
  }

  function Believed(log: seq<Event>): View {
    if log == [] then map[] else See(Believed(log[..|log| - 1]), log[|log| - 1])
  }

  // ----- the operations -----

  /** kill_name. */
  function Killed(l: Lease): Lease {
    l.(lost := l.hostname, hostname := None)
  }

  function FirstWhere(f: Lease -> bool, ls: seq<Lease>, i: nat): (k: nat)
    requires i <= |ls|
    ensures i <= k <= |ls| && (k < |ls| ==> f(ls[k])) && forall j | i <= j < k :: !f(ls[j])
    decreases |ls| - i
  {
    if i == |ls| || f(ls[i]) then i else FirstWhere(f, ls, i + 1)
  }

  function Bears(name: Name): Lease -> bool {
    (l: Lease) => l.hostname == Some(name)
  }

  /** The leases after a name has been taken from whoever has it; none if it may not be taken. */
  function Freed(ls: seq<Lease>, name: Name, auth: bool): (r: Option<seq<Lease>>)
    ensures r.Some? ==> |r.value| == |ls|
  {
    var k := FirstWhere(Bears(name), ls, 0);
    if k == |ls| then Some(ls) else if ls[k].auth && !auth then None else Some(ls[k := Killed(ls[k])])
  }

  /** A lease gets a name, or loses it. */
  function Named(l: Lease, name: Option<Name>, auth: bool): Lease {
    (if l.hostname.Some? then Killed(l) else l).(hostname := name, auth := auth, changed := true)
  }

  /** lease_set_hostname for lease i. */
  function Renamed(t: Table, i: nat, name: Option<Name>, auth: bool): Table
    requires i < |t.leases|
  {
    var l := t.leases[i];
    if name.Some? && l.hostname == name then t.(leases := t.leases[i := l.(auth := auth)])
    else if name.None? && l.hostname.None? then t
    else
      var freed := if name.Some? then Freed(t.leases, name.value, auth) else Some(t.leases);
      if freed.None? then t
      else t.(leases := freed.value[i := Named(freed.value[i], name, auth)])
  }

  /** lease_allocate. */
  function Allocated(t: Table, id: nat): Table {
    if t.left == 0 then t
    else Table([Lease(id, None, None, false, true, false, false, 1, 0)] + t.leases, t.gone, t.left - 1)
  }

  /** lease_prune ends a lease that has expired, or the one asked for. */
  predicate Ends(l: Lease, target: Option<nat>, now: int) {
    (l.expires != 0 && now > l.expires) || target == Some(l.id)
  }

  function Kept(ls: seq<Lease>, target: Option<nat>, now: int): seq<Lease> {
    if ls == [] then []
    else Kept(ls[..|ls| - 1], target, now) + if Ends(ls[|ls| - 1], target, now) then [] else [ls[|ls| - 1]]
  }

  function Ended(ls: seq<Lease>, target: Option<nat>, now: int): seq<Lease> {
    if ls == [] then []
    else (if Ends(ls[|ls| - 1], target, now) then [ls[|ls| - 1]] else []) + Ended(ls[..|ls| - 1], target, now)
  }

  function Pruned(t: Table, target: Option<nat>, now: int): Table {
    Table(Kept(t.leases, target, now), Ended(t.leases, target, now) + t.gone, t.left + |Ended(t.leases, target, now)|)
  }

  function AllChanged(ls: seq<Lease>): (r: seq<Lease>)
    ensures |r| == |ls| && forall i | 0 <= i < |ls| :: r[i] == ls[i].(changed := true)
  {
    if ls == [] then [] else AllChanged(ls[..|ls| - 1]) + [ls[|ls| - 1].(changed := true)]
  }

  // ----- the script -----

  function HasOld(): Lease -> bool {
    (l: Lease) => l.lost.Some?
  }

  function Pending(ro: bool): Lease -> bool {
    (l: Lease) => l.isNew || l.changed || (l.aux && ro)
  }

  /** do_script_run: the next event and the table after it, or nothing. */
  function ScriptRun(t: Table, ro: bool): Option<(Table, Event)> {
    if t.gone != [] then
      var g := t.gone[0];
      if g.lost.Some? then Some((t.(gone := t.gone[0 := g.(lost := None)]), OldHostname(g.id, g.lost.value)))
      else Some((t.(gone := t.gone[1..]), Del(g.id, g.hostname)))
    else
      var i := FirstWhere(HasOld(), t.leases, 0);
      if i < |t.leases| then
        var l := t.leases[i];
        Some((t.(leases := t.leases[i := l.(lost := None)]), OldHostname(l.id, l.lost.value)))
      else
        var j := FirstWhere(Pending(ro), t.leases, 0);
        if j == |t.leases| then None
        else
          var l := t.leases[j];
          Some((t.(leases := t.leases[j := l.(isNew := false, changed := false, aux := false)]),
                if l.isNew then Add(l.id, l.hostname) else Old(l.id, l.hostname)))
  }

  // ----- the invariant -----

  predicate NamesUnique(ls: seq<Lease>) {
    forall i, j | 0 <= i < j < |ls| :: ls[i].hostname.Some? ==> ls[i].hostname != ls[j].hostname
  }

  predicate IdsUnique(ls: seq<Lease>) {
    forall i, j | 0 <= i < j < |ls| :: ls[i].id != ls[j].id
  }

  predicate IsId(ls: seq<Lease>, id: nat) {
    exists i | 0 <= i < |ls| :: ls[i].id == id
  }

  /** A name the listener wrongly believes in is about to be denied; a lease without pending news is believed right. */
  predicate Told(view: View, l: Lease) {
    && (l.id in view && view[l.id].Some? && view[l.id] != l.hostname ==> l.lost.Some?)
    && (!l.isNew && !l.changed ==> l.id in view && if l.lost.Some? then l.hostname.None? else view[l.id] == l.hostname)
  }

  /** No name is believed to belong to two leases. */
  ghost predicate ViewUnique(view: View) {
    forall x, y | x in view && y in view && x != y :: view[x].Some? ==> view[x] != view[y]
  }

  ghost predicate Inv(t: Table, view: View) {
    && IdsUnique(t.leases + t.gone) && NamesUnique(t.leases) && ViewUnique(view)
    && (forall id | id in view :: IsId(t.leases + t.gone, id))
    && (forall i | 0 <= i < |t.leases| :: Told(view, t.leases[i]))
  }

  /** How many events are still to come. */
  function Work(ls: seq<Lease>, ro: bool): nat {
    if ls == [] then 0 else Work(ls[..|ls| - 1], ro) + LeaseWork(ls[|ls| - 1], ro)
  }

  function LeaseWork(l: Lease, ro: bool): nat {
    (if l.lost.Some? then 1 else 0) + (if Pending(ro)(l) then 1 else 0)
  }

  function GoneWork(ls: seq<Lease>): nat {
    if ls == [] then 0 else GoneWork(ls[1..]) + 1 + if ls[0].lost.Some? then 1 else 0
  }

  function ToDo(t: Table, ro: bool): nat {
    Work(t.leases, ro) + GoneWork(t.gone)
  }

  // ----- each event keeps it -----

  predicate SameIds(a: seq<Lease>, b: seq<Lease>) {
    |a| == |b| && forall i | 0 <= i < |a| :: a[i].id == b[i].id
  }

  lemma SameIdsKeep(a: seq<Lease>, b: seq<Lease>)
    requires SameIds(a, b) && IdsUnique(a)
    ensures IdsUnique(b) && forall id :: IsId(a, id) <==> IsId(b, id)
  {
    forall id ensures IsId(a, id) <==> IsId(b, id) {
      if IsId(a, id) {
        var i :| 0 <= i < |a| && a[i].id == id;
        assert b[i].id == id;
      }
      if IsId(b, id) {
        var i :| 0 <= i < |b| && b[i].id == id;
        assert a[i].id == id;
      }
    }
  }

  /** Saying that a lease has no name any more. */
  lemma NoNameKeeps(t: Table, view: View, t': Table, id: nat)
    requires Inv(t, view) && SameIds(t.leases + t.gone, t'.leases + t'.gone) && |t'.leases| == |t.leases| && IsId(t.leases + t.gone, id)
    requires forall i | 0 <= i < |t.leases| ::
               if t.leases[i].id == id then t.leases[i].lost.Some? && t'.leases[i] == t.leases[i].(lost := None)
               else t'.leases[i] == t.leases[i]
    ensures Inv(t', view[id := None])
  {
    SameIdsKeep(t.leases + t.gone, t'.leases + t'.gone);
    forall i | 0 <= i < |t'.leases| ensures Told(view[id := None], t'.leases[i]) {
      assert Told(view, t.leases[i]);
    }
    assert forall i | 0 <= i < |t.leases| :: t'.leases[i].hostname == t.leases[i].hostname;
  }

  lemma DelKeeps(t: Table, view: View)
    requires Inv(t, view) && t.gone != []
    ensures Inv(t.(gone := t.gone[1..]), view - {t.gone[0].id})
  {
    var id, all, n := t.gone[0].id, t.leases + t.gone, |t.leases|;
    var t' := t.(gone := t.gone[1..]);
    var all' := t'.leases + t'.gone;
    assert forall i | 0 <= i < |all'| :: all'[i] == all[if i < n then i else i + 1];
    assert all[n].id == id;
    forall x | x in view - {id} ensures IsId(all', x) {
      var i :| 0 <= i < |all| && all[i].id == x;
      assert all'[if i < n then i else i - 1].id == x;
    }
    forall i | 0 <= i < n ensures Told(view - {id}, t.leases[i]) {
      assert Told(view, t.leases[i]) && all[i] == t.leases[i] && all[i].id != all[n].id;
    }
  }

  /** Telling of a lease, when nothing wrong is believed any more. */
  lemma NewsKeeps(t: Table, view: View, j: nat, l: Lease)
    requires Inv(t, view) && t.gone == [] && j < |t.leases| && forall i | 0 <= i < |t.leases| :: t.leases[i].lost.None?
    requires l == t.leases[j].(isNew := false, changed := false, aux := false)
    ensures Inv(t.(leases := t.leases[j := l]), view[l.id := l.hostname])
  {
    var t', view' := t.(leases := t.leases[j := l]), view[l.id := l.hostname];
    assert t.leases + t.gone == t.leases && t'.leases + t'.gone == t'.leases;
    assert t.leases[j].id == l.id;
    SameIdsKeep(t.leases, t'.leases);
    forall x | x in view && x != l.id && l.hostname.Some? ensures view[x] != l.hostname {
      var i :| 0 <= i < |t.leases| && t.leases[i].id == x;
      assert Told(view, t.leases[i]) && i != j;
    }
    forall i | 0 <= i < |t'.leases| ensures Told(view', t'.leases[i]) {
      assert Told(view, t.leases[i]);
    }
    assert forall i | 0 <= i < |t.leases| :: t'.leases[i].hostname == t.leases[i].hostname;
  }

  /** Every event the script gets keeps the invariant: no prefix of the events puts one name on two leases. */
  lemma ScriptRunKeeps(t: Table, view: View, ro: bool)
    requires Inv(t, view) && ScriptRun(t, ro).Some?
    ensures var (t', e) := ScriptRun(t, ro).value; Inv(t', See(view, e))
  {
    var (t', e) := ScriptRun(t, ro).value;
    if t.gone != [] {
      var g := t.gone[0];
      if g.lost.Some? {
        GoneIsNotLive(t, view);
        assert (t.leases + t.gone)[|t.leases|].id == g.id;
        NoNameKeeps(t, view, t', g.id);
      } else {
        DelKeeps(t, view);
      }
    } else {
      var i := FirstWhere(HasOld(), t.leases, 0);
      if i < |t.leases| {
        LiveIsOne(t, view, i);
        assert (t.leases + t.gone)[i].id == t.leases[i].id;
        NoNameKeeps(t, view, t', t.leases[i].id);
      } else {
        var j := FirstWhere(Pending(ro), t.leases, 0);
        assert forall k | 0 <= k < |t.leases| :: !HasOld()(t.leases[k]);
        NewsKeeps(t, view, j, t'.leases[j]);
      }
    }
  }

  lemma GoneIsNotLive(t: Table, view: View)
    requires Inv(t, view) && t.gone != []
    ensures forall i | 0 <= i < |t.leases| :: t.leases[i].id != t.gone[0].id
  {
    var all := t.leases + t.gone;
    assert all[|t.leases|] == t.gone[0];
    assert forall i | 0 <= i < |t.leases| :: all[i] == t.leases[i] && all[i].id != all[|t.leases|].id;
  }

  lemma LiveIsOne(t: Table, view: View, i: nat)
    requires Inv(t, view) && i < |t.leases|
    ensures forall k | 0 <= k < |t.leases| && k != i :: t.leases[k].id != t.leases[i].id
  {
    var all := t.leases + t.gone;
    assert forall k | 0 <= k < |t.leases| :: all[k] == t.leases[k];
    assert forall k | 0 <= k < |t.leases| && k != i :: all[k].id != all[i].id;
  }

  // ----- progress -----

  lemma {:induction false} WorkUpdate(ls: seq<Lease>, ro: bool, i: nat, l: Lease)
    requires i < |ls|
    ensures Work(ls[i := l], ro) + LeaseWork(ls[i], ro) == Work(ls, ro) + LeaseWork(l, ro)
  {
    var n := |ls| - 1;
    if i == n {
      assert ls[i := l][..n] == ls[..n];
    } else {
      assert ls[i := l][..n] == ls[..n][i := l];
      WorkUpdate(ls[..n], ro, i, l);
    }
  }

  /** Each event is one less to come. */
  lemma ScriptRunShrinks(t: Table, ro: bool)
    requires ScriptRun(t, ro).Some?
    ensures ToDo(ScriptRun(t, ro).value.0, ro) + 1 == ToDo(t, ro)
  {
    if t.gone != [] {
      var g := t.gone[0];
      assert t.gone[0 := g.(lost := None)][1..] == t.gone[1..];
    } else {
      var i := FirstWhere(HasOld(), t.leases, 0);
      if i < |t.leases| {
        WorkUpdate(t.leases, ro, i, t.leases[i].(lost := None));
      } else {
        var j := FirstWhere(Pending(ro), t.leases, 0);
        WorkUpdate(t.leases, ro, j, t.leases[j].(isNew := false, changed := false, aux := false));
      }
    }
  }

  /** The listener believes exactly the table. */
  ghost predicate Agree(view: View, t: Table) {
    && t.gone == [] && (forall id :: id in view <==> IsId(t.leases, id))
    && forall i | 0 <= i < |t.leases| :: t.leases[i].id in view && view[t.leases[i].id] == t.leases[i].hostname
  }

  /** When there is nothing more to tell, the listener knows the table. */
  lemma NothingLeft(t: Table, view: View, ro: bool)
    requires Inv(t, view) && ScriptRun(t, ro).None?
    ensures Agree(view, t)
  {
    assert t.leases + t.gone == t.leases;
    forall i | 0 <= i < |t.leases| ensures t.leases[i].id in view && view[t.leases[i].id] == t.leases[i].hostname {
      assert !HasOld()(t.leases[i]) && !Pending(ro)(t.leases[i]) && Told(view, t.leases[i]);
    }
  }

  // ----- the other operations -----

  lemma LeasesChange(t: Table, view: View, ls: seq<Lease>)
    requires Inv(t, view) && SameIds(t.leases, ls) && NamesUnique(ls) && forall i | 0 <= i < |ls| :: Told(view, ls[i])
    ensures Inv(t.(leases := ls), view)
  {
    assert SameIds(t.leases + t.gone, ls + t.gone);
    SameIdsKeep(t.leases + t.gone, ls + t.gone);
  }

  lemma KilledTold(view: View, l: Lease)
    requires Told(view, l) && l.hostname.Some?
    ensures Told(view, Killed(l))
  {}

  lemma NamedTold(view: View, l: Lease, name: Option<Name>, auth: bool)
    requires Told(view, l)
    ensures Told(view, Named(l, name, auth))
  {}

  /** After the name has been taken away from its bearer, nobody has it. */
  lemma FreedOk(view: View, ls: seq<Lease>, name: Name, auth: bool)
    requires NamesUnique(ls) && (forall i | 0 <= i < |ls| :: Told(view, ls[i])) && Freed(ls, name, auth).Some?
    ensures var r := Freed(ls, name, auth).value;
            && SameIds(ls, r) && NamesUnique(r) && (forall i | 0 <= i < |r| :: Told(view, r[i]))
            && (forall i | 0 <= i < |r| :: r[i].hostname != Some(name))
            && (forall i | 0 <= i < |r| && ls[i].hostname != Some(name) :: r[i] == ls[i])
  {
    var k := FirstWhere(Bears(name), ls, 0);
    var r := Freed(ls, name, auth).value;
    if k == |ls| {
      assert forall i | 0 <= i < |ls| :: !Bears(name)(ls[i]);
    } else {
      assert Bears(name)(ls[k]);
      KilledTold(view, ls[k]);
      assert forall i | 0 <= i < |r| :: r[i] == if i == k then Killed(ls[k]) else ls[i];
    }
  }

  /** lease_set_hostname keeps every name on one lease, and the listener's errors on the way to being corrected. */
  lemma RenamedKeeps(t: Table, view: View, i: nat, name: Option<Name>, auth: bool)
    requires Inv(t, view) && i < |t.leases|
    ensures Inv(Renamed(t, i, name, auth), view)
  {
    var l := t.leases[i];
    if name.Some? && l.hostname == name {
      var ls := t.leases[i := l.(auth := auth)];
      forall k | 0 <= k < |ls| ensures Told(view, ls[k]) && ls[k].hostname == t.leases[k].hostname {
        assert Told(view, t.leases[k]);
      }
      LeasesChange(t, view, ls);
    } else if name.Some? || l.hostname.Some? {
      var freed := if name.Some? then Freed(t.leases, name.value, auth) else Some(t.leases);
      if freed.Some? {
        if name.Some? {
          FreedOk(view, t.leases, name.value, auth);
        }
        NamedKeeps(t, view, freed.value, i, name, auth);
      }
    }
  }

  lemma NamedKeeps(t: Table, view: View, r: seq<Lease>, i: nat, name: Option<Name>, auth: bool)
    requires Inv(t, view) && SameIds(t.leases, r) && NamesUnique(r) && i < |r| && forall k | 0 <= k < |r| :: Told(view, r[k])
    requires name.Some? ==> forall k | 0 <= k < |r| :: r[k].hostname != name
    ensures Inv(t.(leases := r[i := Named(r[i], name, auth)]), view)
  {
    var ls := r[i := Named(r[i], name, auth)];
    NamedTold(view, r[i], name, auth);
    assert forall k | 0 <= k < |ls| :: ls[k] == if k == i then Named(r[i], name, auth) else r[k];
    LeasesChange(t, view, ls);
  }

  lemma AllocatedKeeps(t: Table, view: View, id: nat)
    requires Inv(t, view) && !IsId(t.leases + t.gone, id)
    ensures Inv(Allocated(t, id), view)
  {
    if t.left > 0 {
      var t', all := Allocated(t, id), t.leases + t.gone;
      var all' := t'.leases + t'.gone;
      assert all' == [t'.leases[0]] + all;
      forall x | x in view ensures IsId(all', x) {
        var i :| 0 <= i < |all| && all[i].id == x;
        assert all'[i + 1].id == x;
      }
      forall i | 0 <= i < |t'.leases| ensures Told(view, t'.leases[i]) {
        assert i > 0 ==> t'.leases[i] == t.leases[i - 1] && Told(view, t.leases[i - 1]);
      }
      assert forall i | 0 < i < |t'.leases| :: t'.leases[i] == t.leases[i - 1];
    }
  }

  lemma AllChangedKeeps(t: Table, view: View)
    requires Inv(t, view)
    ensures Inv(t.(leases := AllChanged(t.leases)), view)
  {
    var ls := AllChanged(t.leases);
    forall i | 0 <= i < |ls| ensures Told(view, ls[i]) {
      assert Told(view, t.leases[i]);
    }
    LeasesChange(t, view, ls);
  }

  lemma TouchedKeeps(t: Table, view: View, i: nat, l: Lease)
    requires Inv(t, view) && i < |t.leases|
    requires l == t.leases[i].(changed := l.changed, aux := l.aux, expires := l.expires, iface := l.iface)
    requires t.leases[i].changed ==> l.changed
    ensures Inv(t.(leases := t.leases[i := l]), view)
  {
    var ls := t.leases[i := l];
    forall k | 0 <= k < |ls| ensures Told(view, ls[k]) && ls[k].hostname == t.leases[k].hostname {
      assert Told(view, t.leases[k]);
    }
    LeasesChange(t, view, ls);
  }

  // ----- pruning -----

  lemma {:induction false} PruneSplits(ls: seq<Lease>, target: Option<nat>, now: int)
    ensures multiset(Kept(ls, target, now) + Ended(ls, target, now)) == multiset(ls)
    ensures |Kept(ls, target, now)| + |Ended(ls, target, now)| == |ls|
  {
    if ls != [] {
      var n := |ls| - 1;
      PruneSplits(ls[..n], target, now);
      OneMore(Kept(ls[..n], target, now), ls[n], Ended(ls[..n], target, now));
      assert ls == ls[..n] + [ls[n]];
    }
  }

  lemma PruneStep(ls: seq<Lease>, i: nat, target: Option<nat>, now: int)
    requires i < |ls|
    ensures Kept(ls[..i + 1], target, now) == Kept(ls[..i], target, now) + if Ends(ls[i], target, now) then [] else [ls[i]]
    ensures Ended(ls[..i + 1], target, now) == (if Ends(ls[i], target, now) then [ls[i]] else []) + Ended(ls[..i], target, now)
  {
    assert ls[..i + 1][..i] == ls[..i];
  }

  lemma EndedStep(ls: seq<Lease>, i: nat, target: Option<nat>, now: int, gone: seq<Lease>)
    requires i < |ls|
    ensures Ended(ls[..i + 1], target, now) + gone
            == (if Ends(ls[i], target, now) then [ls[i]] else []) + (Ended(ls[..i], target, now) + gone)
  {
    PruneStep(ls, i, target, now);
  }

  lemma OneMore(a: seq<Lease>, x: Lease, b: seq<Lease>)
    ensures (a + [x]) + b == a + ([x] + b) && multiset(a + ([x] + b)) == multiset(a + b) + multiset{x}
    ensures a + [] == a && [] + b == b
  {}

  lemma {:induction false} KeptMembers(ls: seq<Lease>, target: Option<nat>, now: int)
    ensures forall l :: l in Kept(ls, target, now) <==> l in ls && !Ends(l, target, now)
    ensures NamesUnique(ls) ==> NamesUnique(Kept(ls, target, now))
  {
    if ls != [] {
      var n := |ls| - 1;
      KeptMembers(ls[..n], target, now);
      var kept := Kept(ls[..n], target, now);
      forall i | 0 <= i < |kept| && NamesUnique(ls) && kept[i].hostname.Some? ensures kept[i].hostname != ls[n].hostname {
        assert kept[i] in kept && kept[i] in ls[..n];
        var k :| 0 <= k < n && ls[k] == kept[i];
      }
    }
  }

  /** Two equal elements are at two places. */
  lemma {:induction false} TwoPlaces(s: seq<Lease>, x: Lease) returns (i: nat, j: nat)
    requires multiset(s)[x] >= 2
    ensures i < j < |s| && s[i] == x && s[j] == x
  {
    var n := |s| - 1;
    assert s == s[..n] + [s[n]];
    if s[n] == x {
      assert x in multiset(s[..n]);
      var k :| 0 <= k < n && s[..n][k] == x;
      i, j := k, n;
    } else {
      i, j := TwoPlaces(s[..n], x);
    }
  }

  lemma PermIds(a: seq<Lease>, b: seq<Lease>)
    requires multiset(a) == multiset(b) && IdsUnique(a)
    ensures IdsUnique(b) && forall id :: IsId(a, id) ==> IsId(b, id)
  {
    forall i, j | 0 <= i < j < |b| ensures b[i].id != b[j].id {
      SameIdSame(a, b, i, j);
    }
    forall id | IsId(a, id) ensures IsId(b, id) {
      var i :| 0 <= i < |a| && a[i].id == id;
      assert a[i] in multiset(b);
      var j :| 0 <= j < |b| && b[j] == a[i];
    }
  }

  lemma SameIdSame(a: seq<Lease>, b: seq<Lease>, i: nat, j: nat)
    requires multiset(a) == multiset(b) && IdsUnique(a) && i < j < |b|
    ensures b[i].id != b[j].id
  {
    if b[i] == b[j] {
      TwiceCounted(b, i, j);
      var x, y := TwoPlaces(a, b[i]);
    } else {
      assert b[i] in multiset(a) && b[j] in multiset(a);
      var x :| 0 <= x < |a| && a[x] == b[i];
      var y :| 0 <= y < |a| && a[y] == b[j];
      assert x < y ==> a[x].id != a[y].id;
      assert y < x ==> a[y].id != a[x].id;
    }
  }

  lemma TwiceCounted(b: seq<Lease>, i: nat, j: nat)
    requires i < j < |b| && b[i] == b[j]
    ensures multiset(b)[b[i]] >= 2
  {
    assert b == b[..i] + [b[i]] + b[i + 1..j] + [b[j]] + b[j + 1..];
  }

  lemma PrunedKeeps(t: Table, view: View, target: Option<nat>, now: int)
    requires Inv(t, view)
    ensures Inv(Pruned(t, target, now), view)
  {
    var t' := Pruned(t, target, now);
    PruneSplits(t.leases, target, now);
    KeptMembers(t.leases, target, now);
    var ended := Ended(t.leases, target, now);
    assert t'.leases + t'.gone == (t'.leases + ended) + t.gone;
    PermIds(t.leases + t.gone, t'.leases + t'.gone);
    forall i | 0 <= i < |t'.leases| ensures Told(view, t'.leases[i]) {
      assert t'.leases[i] in t'.leases;
      var k :| 0 <= k < |t.leases| && t.leases[k] == t'.leases[i];
      assert Told(view, t.leases[k]);
    }
  }

  // ----- runs -----

  datatype Op = Allocate(newId: nat) | Prune(target: Option<nat>, now: int) | SetName(i: nat, name: Option<Name>, auth: bool)
              | SetInterface(i: nat, iface: int) | SetExpires(i: nat, expires: int) | Rerun | Script(ro: bool)

  /** A lease that is allocated gets an identity of its own. */
  predicate Possible(t: Table, op: Op) {
    match op
    case Allocate(id) => !IsId(t.leases + t.gone, id)
    case SetName(i, _, _) => i < |t.leases|
    case SetInterface(i, _) => i < |t.leases|
    case SetExpires(i, _) => i < |t.leases|
    case _ => true
  }

  function Do(t: Table, log: seq<Event>, op: Op): (Table, seq<Event>)
    requires Possible(t, op)
  {
    match op
    case Allocate(id) => (Allocated(t, id), log)
    case Prune(target, now) => (Pruned(t, target, now), log)
    case SetName(i, name, auth) => (Renamed(t, i, name, auth), log)
    case SetInterface(i, iface) =>
      var l := t.leases[i];
      (if l.iface == iface then t else t.(leases := t.leases[i := l.(iface := iface, changed := true)]), log)
    case SetExpires(i, expires) =>
      var l := t.leases[i];
      (if l.expires == expires then t else t.(leases := t.leases[i := l.(expires := expires, aux := true)]), log)
    case Rerun => (t.(leases := AllChanged(t.leases)), log)
    case Script(ro) =>
      var r := ScriptRun(t, ro);
      if r.None? then (t, log) else (r.value.0, log + [r.value.1])
  }

  /** At no prefix of the events does the listener see one name on two leases. */
  ghost predicate NeverTwice(log: seq<Event>) {
    forall n | 0 <= n <= |log| :: ViewUnique(Believed(log[..n]))
  }

  ghost predicate Good(t: Table, log: seq<Event>) {
    Inv(t, Believed(log)) && NeverTwice(log)
  }

  lemma LogGrows(log: seq<Event>, e: Event)
    requires NeverTwice(log) && ViewUnique(See(Believed(log), e))
    ensures NeverTwice(log + [e]) && Believed(log + [e]) == See(Believed(log), e)
  {
    var more := log + [e];
    assert more[..|log|] == log;
    forall n | 0 <= n <= |more| ensures ViewUnique(Believed(more[..n])) {
      if n <= |log| {
        assert more[..n] == log[..n];
      } else {
        assert more[..n] == more;
      }
    }
  }

  /** Every operation keeps what the listener is promised, and the number of leases. */
  lemma DoKeeps(t: Table, log: seq<Event>, op: Op)
    requires Good(t, log) && Possible(t, op)
    ensures Good(Do(t, log, op).0, Do(t, log, op).1)
    ensures var t' := Do(t, log, op).0; t'.left + |t'.leases| == t.left + |t.leases|
  {
    var view := Believed(log);
    match op {
      case Allocate(id) => AllocatedKeeps(t, view, id);
      case Prune(target, now) =>
        PrunedKeeps(t, view, target, now);
        PruneSplits(t.leases, target, now);
      case SetName(i, name, auth) => RenamedKeeps(t, view, i, name, auth);
      case SetInterface(i, iface) => TouchedKeeps(t, view, i, t.leases[i].(iface := iface, changed := true));
      case SetExpires(i, expires) => TouchedKeeps(t, view, i, t.leases[i].(expires := expires, aux := true));
      case Rerun => AllChangedKeeps(t, view);
      case Script(ro) =>
        if ScriptRun(t, ro).Some? {
          ScriptRunKeeps(t, view, ro);
          LogGrows(log, ScriptRun(t, ro).value.1);
        }
    }
  }

  predicate AllPossible(t: Table, log: seq<Event>, ops: seq<Op>)
    decreases |ops|
  {
    ops == [] || (Possible(t, ops[0]) && AllPossible(Do(t, log, ops[0]).0, Do(t, log, ops[0]).1, ops[1..]))
  }

  function Run(t: Table, log: seq<Event>, ops: seq<Op>): (Table, seq<Event>)
    requires AllPossible(t, log, ops)
    decreases |ops|
  {
    if ops == [] then (t, log) else Run(Do(t, log, ops[0]).0, Do(t, log, ops[0]).1, ops[1..])
  }

  /** Over every run, no prefix of the events shows a name twice. */
  lemma {:induction false} RunKeeps(t: Table, log: seq<Event>, ops: seq<Op>)
    requires Good(t, log) && AllPossible(t, log, ops)
    ensures Good(Run(t, log, ops).0, Run(t, log, ops).1)
    decreases |ops|
  {
    if ops != [] {
      DoKeeps(t, log, ops[0]);
      RunKeeps(Do(t, log, ops[0]).0, Do(t, log, ops[0]).1, ops[1..]);
    }
  }

  /** After rerun_scripts a listener who knows nothing can start. */
  lemma StartIsGood(t: Table)
    requires t.gone == [] && IdsUnique(t.leases) && NamesUnique(t.leases)
    ensures Good(t.(leases := AllChanged(t.leases)), [])
  {
    var t' := t.(leases := AllChanged(t.leases));
    assert t'.leases + t'.gone == t'.leases;
  }

  // ----- new leases and known ones -----

  /** The leases that the listener knows: those it knew, and those added, unless deleted since. */
  function Known(start: set<nat>, log: seq<Event>): set<nat> {
    if log == [] then start
    else
      var known, e := Known(start, log[..|log| - 1]), log[|log| - 1];
      match e
      case Add(id, _) => known + {id}
      case Del(id, _) => known - {id}
      case _ => known
  }

  /** Only a lease that is not known is added, and only of one that is known a change is told. */
  ghost predicate ToldRightly(start: set<nat>, log: seq<Event>) {
    forall n | 0 <= n < |log| ::
      && (log[n].Add? ==> log[n].id !in Known(start, log[..n]))
      && (log[n].Old? ==> log[n].id in Known(start, log[..n]))
  }

  /** The leases marked as new are those that are not known. */
  ghost predicate NewUnknown(t: Table, known: set<nat>) {
    && (forall i | 0 <= i < |t.leases| :: t.leases[i].isNew <==> t.leases[i].id !in known)
    && forall id | id in known :: IsId(t.leases + t.gone, id)
  }

  ghost predicate News(t: Table, start: set<nat>, log: seq<Event>) {
    NewUnknown(t, Known(start, log)) && ToldRightly(start, log)
  }

  lemma KnownGrows(start: set<nat>, log: seq<Event>, e: Event)
    requires ToldRightly(start, log)
    requires (e.Add? ==> e.id !in Known(start, log)) && (e.Old? ==> e.id in Known(start, log))
    ensures ToldRightly(start, log + [e])
    ensures Known(start, log + [e])
            == if e.Add? then Known(start, log) + {e.id} else if e.Del? then Known(start, log) - {e.id} else Known(start, log)
  {
    var more := log + [e];
    assert more[..|log|] == log;
    forall n | 0 <= n < |more|
      ensures more[n].Add? ==> more[n].id !in Known(start, more[..n])
      ensures more[n].Old? ==> more[n].id in Known(start, more[..n])
    {
      assert more[..n] == log[..n];
    }
  }

  lemma InPlaceNews(t: Table, ls: seq<Lease>, known: set<nat>)
    requires IdsUnique(t.leases + t.gone) && NewUnknown(t, known)
    requires SameIds(t.leases, ls) && forall k | 0 <= k < |ls| :: ls[k].isNew == t.leases[k].isNew
    ensures NewUnknown(t.(leases := ls), known)
  {
    assert SameIds(t.leases + t.gone, ls + t.gone);
    SameIdsKeep(t.leases + t.gone, ls + t.gone);
  }

  lemma RenamedNews(t: Table, i: nat, name: Option<Name>, auth: bool, known: set<nat>)
    requires IdsUnique(t.leases + t.gone) && i < |t.leases| && NewUnknown(t, known)
    ensures NewUnknown(Renamed(t, i, name, auth), known)
  {
    var t' := Renamed(t, i, name, auth);
    assert t' == t.(leases := t'.leases);
    InPlaceNews(t, t'.leases, known);
  }

  lemma AllocatedNews(t: Table, id: nat, known: set<nat>)
    requires !IsId(t.leases + t.gone, id) && NewUnknown(t, known)
    ensures NewUnknown(Allocated(t, id), known)
  {
    if t.left > 0 {
      var t', all := Allocated(t, id), t.leases + t.gone;
      var all' := t'.leases + t'.gone;
      assert all' == [t'.leases[0]] + all;
      forall x | x in known ensures IsId(all', x) {
        var i :| 0 <= i < |all| && all[i].id == x;
        assert all'[i + 1].id == x;
      }
    }
  }

  lemma PrunedNews(t: Table, target: Option<nat>, now: int, known: set<nat>)
    requires IdsUnique(t.leases + t.gone) && NewUnknown(t, known)
    ensures NewUnknown(Pruned(t, target, now), known)
  {
    var t' := Pruned(t, target, now);
    PruneSplits(t.leases, target, now);
    KeptMembers(t.leases, target, now);
    assert t'.leases + t'.gone == (t'.leases + Ended(t.leases, target, now)) + t.gone;
    PermIds(t.leases + t.gone, t'.leases + t'.gone);
    forall i | 0 <= i < |t'.leases| ensures t'.leases[i].isNew <==> t'.leases[i].id !in known {
      assert t'.leases[i] in t'.leases;
      var k :| 0 <= k < |t.leases| && t.leases[k] == t'.leases[i];
    }
  }

  lemma DelNews(t: Table, known: set<nat>)
    requires IdsUnique(t.leases + t.gone) && NewUnknown(t, known) && t.gone != []
    ensures NewUnknown(t.(gone := t.gone[1..]), known - {t.gone[0].id})
  {
    var id, all, n := t.gone[0].id, t.leases + t.gone, |t.leases|;
    var all' := t.leases + t.gone[1..];
    assert all[n].id == id;
    forall x | x in known - {id} ensures IsId(all', x) {
      var i :| 0 <= i < |all| && all[i].id == x;
      assert all'[if i < n then i else i - 1].id == x;
    }
    forall i | 0 <= i < n ensures t.leases[i].id != id {
      assert all[i] == t.leases[i] && all[i].id != all[n].id;
    }
  }

  /** The lease that is told of is known from now on, and no longer new. */
  lemma AddNews(t: Table, j: nat, known: set<nat>)
    requires IdsUnique(t.leases + t.gone) && NewUnknown(t, known) && j < |t.leases|
    ensures NewUnknown(t.(leases := t.leases[j := t.leases[j].(isNew := false, changed := false, aux := false)]), known + {t.leases[j].id})
  {
    var l, all := t.leases[j], t.leases + t.gone;
    var ls := t.leases[j := l.(isNew := false, changed := false, aux := false)];
    assert SameIds(all, ls + t.gone);
    SameIdsKeep(all, ls + t.gone);
    assert all[j].id == l.id;
    forall i | 0 <= i < |ls| ensures ls[i].isNew <==> ls[i].id !in known + {l.id} {
      assert all[i] == t.leases[i] && all[j] == l;
    }
  }

  lemma ScriptNews(t: Table, start: set<nat>, log: seq<Event>, ro: bool)
    requires IdsUnique(t.leases + t.gone) && News(t, start, log) && ScriptRun(t, ro).Some?
    ensures var (t', e) := ScriptRun(t, ro).value; News(t', start, log + [e])
  {
    var (t', e) := ScriptRun(t, ro).value;
    var known := Known(start, log);
    if t.gone != [] {
      if t.gone[0].lost.Some? {
        SameIdsKeep(t.leases + t.gone, t'.leases + t'.gone);
      } else {
        DelNews(t, known);
      }
    } else {
      var i := FirstWhere(HasOld(), t.leases, 0);
      if i < |t.leases| {
        InPlaceNews(t, t'.leases, known);
      } else {
        var j := FirstWhere(Pending(ro), t.leases, 0);
        AddNews(t, j, known);
        assert t.leases[j].isNew <==> t.leases[j].id !in known;
        assert !t.leases[j].isNew ==> known + {t.leases[j].id} == known;
      }
    }
    KnownGrows(start, log, e);
  }

  /** Every operation keeps the marks right, and what it tells is right. */
  lemma DoNews(t: Table, start: set<nat>, log: seq<Event>, op: Op)
    requires IdsUnique(t.leases + t.gone) && Possible(t, op) && News(t, start, log)
    ensures News(Do(t, log, op).0, start, Do(t, log, op).1)
  {
    var known := Known(start, log);
    match op {
      case Allocate(id) => AllocatedNews(t, id, known);
      case Prune(target, now) => PrunedNews(t, target, now, known);
      case SetName(i, name, auth) => RenamedNews(t, i, name, auth, known);
      case SetInterface(i, iface) => InPlaceNews(t, Do(t, log, op).0.leases, known);
      case SetExpires(i, expires) => InPlaceNews(t, Do(t, log, op).0.leases, known);
      case Rerun => InPlaceNews(t, AllChanged(t.leases), known);
      case Script(ro) =>
        if ScriptRun(t, ro).Some? {
          ScriptNews(t, start, log, ro);
        }
    }
  }

  /** Over every run: a lease is added once, before any change of it is told, and again only after it was deleted. */
  lemma {:induction false} RunTellsRightly(t: Table, start: set<nat>, log: seq<Event>, ops: seq<Op>)
    requires Good(t, log) && AllPossible(t, log, ops) && News(t, start, log)
    ensures News(Run(t, log, ops).0, start, Run(t, log, ops).1)
    decreases |ops|
  {
    if ops != [] {
      DoKeeps(t, log, ops[0]);
      DoNews(t, start, log, ops[0]);
      RunTellsRightly(Do(t, log, ops[0]).0, start, Do(t, log, ops[0]).1, ops[1..]);
    }
  }

  lemma OpKeeps(t: Table, log: seq<Event>, op: Op)
    requires Good(t, log) && News(t, {}, log) && Possible(t, op)
    ensures Good(Do(t, log, op).0, Do(t, log, op).1) && News(Do(t, log, op).0, {}, Do(t, log, op).1)
    ensures var t' := Do(t, log, op).0; t'.left + |t'.leases| == t.left + |t.leases|
  {
    DoKeeps(t, log, op);
    DoNews(t, {}, log, op);
  }

  /** What a lease may tell: that it is new, or that it has changed. */
  predicate HasNews(l: Lease, ro: bool) {
    l.isNew || l.changed || (l.aux && ro)
  }

  /** The event that is due: first of the lease that ended last, then of a lost name, then of the first lease with news. */
  predicate Due(t: Table, ro: bool, e: Event) {
    if t.gone != [] then
      e == if t.gone[0].lost.Some? then OldHostname(t.gone[0].id, t.gone[0].lost.value) else Del(t.gone[0].id, t.gone[0].hostname)
    else if exists l | l in t.leases :: l.lost.Some? then
      exists i | 0 <= i < |t.leases| ::
        && t.leases[i].lost.Some? && e == OldHostname(t.leases[i].id, t.leases[i].lost.value)
        && forall k | 0 <= k < i :: t.leases[k].lost.None?
    else
      exists i | 0 <= i < |t.leases| ::
        && HasNews(t.leases[i], ro)
        && e == (if t.leases[i].isNew then Add(t.leases[i].id, t.leases[i].hostname) else Old(t.leases[i].id, t.leases[i].hostname))
        && forall k | 0 <= k < i :: !HasNews(t.leases[k], ro)
  }

  lemma ScriptRunIsDue(t: Table, ro: bool)
    ensures ScriptRun(t, ro).Some? <==> t.gone != [] || exists l | l in t.leases :: l.lost.Some? || HasNews(l, ro)
    ensures ScriptRun(t, ro).Some? ==> Due(t, ro, ScriptRun(t, ro).value.1)
  {
    var i, j := FirstWhere(HasOld(), t.leases, 0), FirstWhere(Pending(ro), t.leases, 0);
    assert i < |t.leases| ==> HasOld()(t.leases[i]) && t.leases[i] in t.leases;
    assert j < |t.leases| ==> Pending(ro)(t.leases[j]) && t.leases[j] in t.leases;
    assert forall k | 0 <= k < i :: !HasOld()(t.leases[k]);
    assert forall k | 0 <= k < j :: !Pending(ro)(t.leases[k]);
  }

  /** Somebody whose name the client may not take has it. */
  predicate Refused(t: Table, i: nat, name: Option<Name>, auth: bool)
    requires i < |t.leases|
  {
    name.Some? && t.leases[i].hostname != name && !auth && exists k | 0 <= k < |t.leases| :: t.leases[k].hostname == name && t.leases[k].auth
  }

  /** lease_set_hostname: the lease gets the name unless that is refused; whoever had it loses it; nothing else changes. */
  lemma RenamedMeans(t: Table, i: nat, name: Option<Name>, auth: bool, k: nat)
    requires NamesUnique(t.leases) && i < |t.leases| && k < |t.leases|
    ensures var ls, l := Renamed(t, i, name, auth).leases, t.leases[k];
            && |ls| == |t.leases|
            && ls[k] == if Refused(t, i, name, auth) || (name.None? && t.leases[i].hostname.None?) then l
                        else if k != i then
                          if name.Some? && l.hostname == name && t.leases[i].hostname != name then l.(hostname := None, lost := name) else l
                        else if l.hostname == name then l.(auth := auth)
                        else if l.hostname.None? then l.(hostname := name, auth := auth, changed := true)
                        else l.(hostname := name, lost := l.hostname, auth := auth, changed := true)
  {
    if name.Some? {
      var b := FirstWhere(Bears(name.value), t.leases, 0);
      assert forall j | 0 <= j < b :: !Bears(name.value)(t.leases[j]);
      assert b < |t.leases| ==> Bears(name.value)(t.leases[b]);
      assert forall j | b < j < |t.leases| :: t.leases[j].hostname != name;
    }
  }

  // ----- the lists in memory -----

  class LeaseDb {
    var leases: seq<Lease>
    var gone: seq<Lease>
    var left: nat
    /** The events the script has been given. */
    ghost var log: seq<Event>

    ghost function T(): Table
      reads this
    {
      Table(leases, gone, left)
    }

    ghost predicate Valid()
      reads this
    {
      Good(T(), log) && News(T(), {}, log)
    }

    /** No leases, and nobody has been told of any. */
    constructor (max: nat)
      ensures Valid() && leases == [] && gone == [] && left == max && log == []
    {
      leases, gone, left, log := [], [], max, [];
    }

    method LeaseAllocate(id: nat) returns (ok: bool)
      requires Valid() && !IsId(leases + gone, id)
      modifies this`leases, this`left
      ensures Valid() && T() == Allocated(old(T()), id) && ok == (old(left) > 0) && left + |leases| == old(left) + |old(leases)|
    {
      OpKeeps(T(), log, Allocate(id));
      ok := left > 0;
      if ok {
        leases := [Lease(id, None, None, false, true, false, false, 1, 0)] + leases;
        left := left - 1;
      }
    }

    method LeasePrune(target: Option<nat>, now: int)
      requires Valid()
      modifies this`leases, this`gone, this`left
      ensures Valid() && T() == Pruned(old(T()), target, now) && left + |leases| == old(left) + |old(leases)|
    {
      OpKeeps(T(), log, Prune(target, now));
      MoveEnded(target, now);
    }

    /** The loop of lease_prune. */
    method MoveEnded(target: Option<nat>, now: int)
      modifies this`leases, this`gone, this`left
      ensures T() == Pruned(old(T()), target, now)
    {
      var i, kept := 0, [];
      while i < |leases|
        invariant i <= |leases| && leases == old(leases) && kept == Kept(leases[..i], target, now)
        invariant gone == Ended(leases[..i], target, now) + old(gone) && left == old(left) + |Ended(leases[..i], target, now)|
      {
        PruneStep(leases, i, target, now);
        EndedStep(leases, i, target, now, old(gone));
        if (leases[i].expires != 0 && now > leases[i].expires) || target == Some(leases[i].id) {
          gone := [leases[i]] + gone;
          left := left + 1;
        } else {
          kept := kept + [leases[i]];
        }
        i := i + 1;
      }
      assert leases[..i] == leases;
      leases := kept;
    }

    /** The search of a list for the first lease of a kind. */
    static method Search(f: Lease -> bool, ls: seq<Lease>) returns (k: nat)
      ensures k == FirstWhere(f, ls, 0)
    {
      k := 0;
      while k < |ls| && !f(ls[k])
        invariant k <= |ls| && FirstWhere(f, ls, 0) == FirstWhere(f, ls, k)
      {
        k := k + 1;
      }
    }

    method LeaseSetHostname(i: nat, name: Option<Name>, auth: bool)
      requires Valid() && i < |leases|
      modifies this`leases
      ensures Valid() && T() == Renamed(old(T()), i, name, auth)
      ensures Refused(old(T()), i, name, auth) ==> leases == old(leases)
      ensures !Refused(old(T()), i, name, auth) ==>
                && leases[i].hostname == name && (forall k | 0 <= k < |leases| && k != i && name.Some? :: leases[k].hostname != name)
    {
      forall k | 0 <= k < |leases| {
        RenamedMeans(T(), i, name, auth, k);
      }
      OpKeeps(T(), log, SetName(i, name, auth));
      Rename(i, name, auth);
    }

    method Rename(i: nat, name: Option<Name>, auth: bool)
      requires i < |leases|
      modifies this`leases
      ensures T() == Renamed(old(T()), i, name, auth)
    {
      var l := leases[i];
      if name.Some? && l.hostname == name {
        leases := leases[i := l.(auth := auth)];
        return;
      }
      if name.None? && l.hostname.None? {
        return;
      }
      if name.Some? {
        var k := Search(Bears(name.value), leases);
        if k < |leases| {
          if leases[k].auth && !auth {
            return;
          }
          leases := leases[k := Killed(leases[k])];
        }
      }
      if leases[i].hostname.Some? {
        leases := leases[i := Killed(leases[i])];
      }
      leases := leases[i := leases[i].(hostname := name, auth := auth, changed := true)];
    }

    method RerunScripts()
      requires Valid()
      modifies this`leases
      ensures Valid() && leases == AllChanged(old(leases))
    {
      OpKeeps(T(), log, Rerun);
      var i := 0;
      while i < |leases|
        invariant i <= |leases| == |old(leases)|
        invariant forall k | 0 <= k < |leases| :: leases[k] == if k < i then old(leases)[k].(changed := true) else old(leases)[k]
      {
        leases := leases[i := leases[i].(changed := true)];
        i := i + 1;
      }
      assert leases == AllChanged(old(leases));
    }

    /** do_script_run: false if there is nothing to do. */
    method DoScriptRun(ro: bool) returns (more: bool)
      requires Valid()
      modifies this`leases, this`gone, this`log
      ensures Valid() && (more <==> old(gone) != [] || exists l | l in old(leases) :: l.lost.Some? || HasNews(l, ro))
      ensures more ==> |log| == |old(log)| + 1 && Due(old(T()), ro, log[|old(log)|])
      ensures if more then (T(), log) == Do(old(T()), old(log), Script(ro)) && ToDo(T(), ro) + 1 == ToDo(old(T()), ro)
              else T() == old(T()) && log == old(log) && Agree(Believed(log), T())
    {
      OpKeeps(T(), log, Script(ro));
      ghost var t := T();
      ScriptRunIsDue(t, ro);
      more := Announce(ro);
      if more {
        ScriptRunShrinks(t, ro);
        log := log + [ScriptRun(t, ro).value.1];
      } else {
        NothingLeft(t, Believed(log), ro);
      }
    }

    /** The next event is given to the script. */
    method Announce(ro: bool) returns (more: bool)
      modifies this`leases, this`gone
      ensures more == ScriptRun(old(T()), ro).Some? && T() == if more then ScriptRun(old(T()), ro).value.0 else old(T())
    {
      if gone != [] {
        var g := gone[0];
        gone := if g.lost.Some? then gone[0 := g.(lost := None)] else gone[1..];
        return true;
      }
      var i := Search(HasOld(), leases);
      if i < |leases| {
        leases := leases[i := leases[i].(lost := None)];
        return true;
      }
      var j := Search(Pending(ro), leases);
      if j < |leases| {
        leases := leases[j := leases[j].(isNew := false, changed := false, aux := false)];
        return true;
      }
      return false;
    }

    /** Giving events until there are none tells the listener the whole table. */
    method TellAll(ro: bool)
      requires Valid()
      modifies this`leases, this`gone, this`log
      ensures Valid() && Agree(Believed(log), T()) && |log| == |old(log)| + ToDo(old(T()), ro)
    {
      var more := true;
      while more
        invariant Valid() && (!more ==> Agree(Believed(log), T()) && ToDo(T(), ro) == 0)
        invariant |log| + ToDo(T(), ro) == |old(log)| + ToDo(old(T()), ro)
        decreases if more then 1 else 0, ToDo(T(), ro)
      {
        ghost var t := T();
        more := DoScriptRun(ro);
        if !more {
          NothingToDo(t, ro);
        }
      }
    }
  }

  lemma NothingToDo(t: Table, ro: bool)
    requires ScriptRun(t, ro).None?
    ensures ToDo(t, ro) == 0
  {
    forall i | 0 <= i < |t.leases| ensures LeaseWork(t.leases[i], ro) == 0 {
      assert !HasOld()(t.leases[i]) && !Pending(ro)(t.leases[i]);
    }
    NoWork(t.leases, ro);
  }

  lemma {:induction false} NoWork(ls: seq<Lease>, ro: bool)
    requires forall i | 0 <= i < |ls| :: LeaseWork(ls[i], ro) == 0
    ensures Work(ls, ro) == 0
  {
    if ls != [] {
      NoWork(ls[..|ls| - 1], ro);
    }
  }
}
