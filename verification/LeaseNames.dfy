/**
  The name that an old-hostname event carries (external/dnsmasq/src/lease.c). A lease keeps only the last name it
  lost, so the event names what the listener believes if and only if the listener had been told that last name.
 */
module LeaseNames {
  import opened Options
  import opened Lists
  import opened LeaseScripts

  /** The name of whose loss the listener is still to be told is the one it believes in. */
  predicate Carries(view: View, l: Lease) {
    l.lost.Some? ==> l.id in view && view[l.id] == l.lost
  }

  /** The listener knows the name that the lease has. */
  predicate Timely(view: View, l: Lease) {
    l.hostname.Some? ==> l.id in view && view[l.id] == l.hostname
  }

  /** A lease without pending news can lose its name at any time. */
  lemma QuietIsTimely(view: View, l: Lease)
    requires Told(view, l) && !l.isNew && !l.changed
    ensures Timely(view, l)
  {}

  /** A lease renamed twice before the script runs: the event carries the name in between, of which nobody was told. */
  lemma RenamedTwice(view: View, l: Lease, b: Name, c: Name, auth: bool)
    requires l.hostname.Some? && Timely(view, l) && l.hostname != Some(b)
    ensures !Carries(view, Named(Named(l, Some(b), auth), Some(c), auth))
  {}

  // ----- which leases have lost a name that nobody was told -----

  /** A renaming that is not refused takes the name of the lease itself, and of the lease that has the new one. */
  predicate Takes(t: Table, i: nat, name: Option<Name>, auth: bool, k: nat)
    requires i < |t.leases| && k < |t.leases|
  {
    && t.leases[i].hostname != name && (name.Some? ==> Freed(t.leases, name.value, auth).Some?)
    && t.leases[k].hostname.Some? && (k == i || t.leases[k].hostname == name)
  }

  predicate TakenFrom(t: Table, i: nat, name: Option<Name>, auth: bool, id: nat)
    requires i < |t.leases|
  {
    exists k | 0 <= k < |t.leases| :: Takes(t, i, name, auth, k) && t.leases[k].id == id
  }

  /** The leases whose name is taken before the listener was told it. */
  function TakenEarly(t: Table, view: View, i: nat, name: Option<Name>, auth: bool): set<nat>
    requires i < |t.leases|
  {
    set k | 0 <= k < |t.leases| && Takes(t, i, name, auth, k) && !Timely(view, t.leases[k]) :: t.leases[k].id
  }

  predicate Announces(t: Table, op: Op, id: nat) {
    op.Script? && ScriptRun(t, op.ro).Some? && ScriptRun(t, op.ro).value.1.OldHostname? && ScriptRun(t, op.ro).value.1.id == id
  }

  /** The leases whose last lost name the listener had not been told, followed through an operation. */
  function UntoldAfter(t: Table, view: View, op: Op, u: set<nat>): set<nat>
    requires Possible(t, op)
  {
    if op.SetName? then
      (set id | id in u && !TakenFrom(t, op.i, op.name, op.auth, id)) + TakenEarly(t, view, op.i, op.name, op.auth)
    else set id | id in u && !Announces(t, op, id)
  }

  // ----- each operation -----

  /** u says of the lease whether the name it has lost is the one believed in. */
  predicate MarkOk(view: View, u: set<nat>, l: Lease) {
    l.lost.Some? ==> (l.id in u <==> !Carries(view, l))
  }

  ghost predicate Marks(t: Table, view: View, u: set<nat>) {
    forall l | l in t.leases + t.gone :: MarkOk(view, u, l)
  }

  /** The script is told of the loss of a name that the listener believes in, and of nothing else that way. */
  ghost predicate Honest(view: View, e: Event) {
    e.OldHostname? ==> e.id in view && view[e.id] == Some(e.was)
  }

  lemma RenamedLoses(t: Table, i: nat, name: Option<Name>, auth: bool, k: nat)
    requires i < |t.leases| && k < |t.leases| && NamesUnique(t.leases)
    ensures var ls := Renamed(t, i, name, auth).leases;
            && |ls| == |t.leases| && ls[k].id == t.leases[k].id
            && ls[k].lost == if Takes(t, i, name, auth, k) then t.leases[k].hostname else t.leases[k].lost
  {
    if name.Some? {
      var j := FirstWhere(Bears(name.value), t.leases, 0);
      assert j < |t.leases| ==> Bears(name.value)(t.leases[j]);
      assert k < j ==> !Bears(name.value)(t.leases[k]);
    }
  }

  lemma IdIsOne(ls: seq<Lease>, i: nat, j: nat)
    requires IdsUnique(ls) && i < |ls| && j < |ls| && ls[i].id == ls[j].id
    ensures i == j
  {}

  lemma RenamedMark(t: Table, view: View, op: Op, u: set<nat>, k: nat)
    requires op.SetName? && Possible(t, op) && IdsUnique(t.leases + t.gone) && NamesUnique(t.leases) && Marks(t, view, u)
    requires k < |t.leases + t.gone|
    ensures var t' := Renamed(t, op.i, op.name, op.auth);
            |t'.leases + t'.gone| == |t.leases + t.gone| && MarkOk(view, UntoldAfter(t, view, op, u), (t'.leases + t'.gone)[k])
  {
    var all, n := t.leases + t.gone, |t.leases|;
    var u' := UntoldAfter(t, view, op, u);
    RenamedLoses(t, op.i, op.name, op.auth, op.i);
    assert all[k] in all;
    forall j | 0 <= j < n && t.leases[j].id == all[k].id ensures j == k {
      assert all[j] == t.leases[j];
      IdIsOne(all, j, k);
    }
    if k < n {
      RenamedLoses(t, op.i, op.name, op.auth, k);
    }
  }

  lemma RenamedMarks(t: Table, view: View, op: Op, u: set<nat>)
    requires op.SetName? && Possible(t, op) && IdsUnique(t.leases + t.gone) && NamesUnique(t.leases) && Marks(t, view, u)
    ensures Marks(Renamed(t, op.i, op.name, op.auth), view, UntoldAfter(t, view, op, u))
  {
    var t' := Renamed(t, op.i, op.name, op.auth);
    var all' := t'.leases + t'.gone;
    RenamedLoses(t, op.i, op.name, op.auth, op.i);
    forall l | l in all' ensures MarkOk(view, UntoldAfter(t, view, op, u), l) {
      var k :| 0 <= k < |all'| && all'[k] == l;
      RenamedMark(t, view, op, u, k);
    }
  }

  /** A change of leases in place that loses no name. */
  lemma InPlaceMarks(t: Table, view: View, ls: seq<Lease>, u: set<nat>)
    requires Marks(t, view, u) && SameIds(t.leases, ls) && forall k | 0 <= k < |ls| :: ls[k].lost == t.leases[k].lost
    ensures Marks(t.(leases := ls), view, u)
  {
    forall l | l in ls ensures MarkOk(view, u, l) {
      var k :| 0 <= k < |ls| && ls[k] == l;
      assert t.leases[k] in t.leases + t.gone;
    }
    assert forall l | l in t.gone :: l in t.leases + t.gone;
  }

  lemma PrunedMarks(t: Table, view: View, target: Option<nat>, now: int, u: set<nat>)
    requires Marks(t, view, u)
    ensures Marks(Pruned(t, target, now), view, u)
  {
    var t', ended := Pruned(t, target, now), Ended(t.leases, target, now);
    PruneSplits(t.leases, target, now);
    forall l | l in t'.leases + t'.gone ensures l in t.leases + t.gone {
      if l in t'.leases + ended {
        assert l in multiset(t'.leases + ended);
        assert l in multiset(t.leases);
      }
    }
  }

  /** After an event about one lease, the others are marked as before. */
  lemma OthersMarked(view: View, view': View, u: set<nat>, u': set<nat>, l: Lease, id: nat)
    requires MarkOk(view, u, l) && l.id != id && (l.id in u' <==> l.id in u)
    requires (l.id in view' <==> l.id in view) && (l.id in view ==> view'[l.id] == view[l.id])
    ensures MarkOk(view', u', l)
  {}

  /** What the script is told first: of a lost name, then of ended leases, and of the others only when none is left. */
  lemma ScriptMarks(t: Table, view: View, op: Op, u: set<nat>)
    requires op.Script? && IdsUnique(t.leases + t.gone) && Marks(t, view, u) && ScriptRun(t, op.ro).Some?
    ensures var (t', e) := ScriptRun(t, op.ro).value;
            && Marks(t', See(view, e), UntoldAfter(t, view, op, u))
            && (Honest(view, e) <==> forall id | id in u :: !Announces(t, op, id))
  {
    var (t', e) := ScriptRun(t, op.ro).value;
    var all, all', n := t.leases + t.gone, t'.leases + t'.gone, |t.leases|;
    if t.gone != [] {
      var g := t.gone[0];
      assert g in all && all[n] == g;
      forall l | l in all' ensures MarkOk(See(view, e), UntoldAfter(t, view, op, u), l) {
        var k :| 0 <= k < |all'| && all'[k] == l;
        var j := if k >= n && g.lost.None? then k + 1 else k;
        if j != n {
          assert l == all[j] && all[j] in all;
          OtherId(all, j, n);
          OthersMarked(view, See(view, e), u, UntoldAfter(t, view, op, u), l, g.id);
        }
      }
    } else {
      LiveScriptMarks(t, view, op, u);
    }
  }

  lemma OtherId(ls: seq<Lease>, i: nat, j: nat)
    requires IdsUnique(ls) && i < |ls| && j < |ls| && i != j
    ensures ls[i].id != ls[j].id
  {}

  lemma LiveScriptMarks(t: Table, view: View, op: Op, u: set<nat>)
    requires op.Script? && IdsUnique(t.leases + t.gone) && Marks(t, view, u) && ScriptRun(t, op.ro).Some? && t.gone == []
    ensures var (t', e) := ScriptRun(t, op.ro).value;
            && Marks(t', See(view, e), UntoldAfter(t, view, op, u))
            && (Honest(view, e) <==> forall id | id in u :: !Announces(t, op, id))
  {
    var (t', e) := ScriptRun(t, op.ro).value;
    assert t.leases + t.gone == t.leases && t'.leases + t'.gone == t'.leases;
    var i := FirstWhere(HasOld(), t.leases, 0);
    if i < |t.leases| {
      assert t.leases[i] in t.leases;
      forall l | l in t'.leases ensures MarkOk(See(view, e), UntoldAfter(t, view, op, u), l) {
        var k :| 0 <= k < |t'.leases| && t'.leases[k] == l;
        if k != i {
          assert t.leases[k] in t.leases;
          OtherId(t.leases, k, i);
          OthersMarked(view, See(view, e), u, UntoldAfter(t, view, op, u), l, t.leases[i].id);
        }
      }
    } else {
      assert forall k | 0 <= k < |t.leases| :: !HasOld()(t.leases[k]);
    }
  }

  lemma DoMarks(t: Table, log: seq<Event>, op: Op, u: set<nat>)
    requires Good(t, log) && Possible(t, op) && Marks(t, Believed(log), u)
    ensures Marks(Do(t, log, op).0, Believed(Do(t, log, op).1), UntoldAfter(t, Believed(log), op, u))
  {
    var view := Believed(log);
    if !op.SetName? && !op.Script? {
      assert UntoldAfter(t, view, op, u) == u;
    }
    match op {
      case Allocate(id) =>
      case Prune(target, now) => PrunedMarks(t, view, target, now, u);
      case SetName(i, name, auth) => RenamedMarks(t, view, op, u);
      case SetInterface(i, iface) => InPlaceMarks(t, view, t.leases[i := t.leases[i].(iface := iface, changed := true)], u);
      case SetExpires(i, expires) => InPlaceMarks(t, view, t.leases[i := t.leases[i].(expires := expires, aux := true)], u);
      case Rerun => InPlaceMarks(t, view, AllChanged(t.leases), u);
      case Script(ro) =>
        if ScriptRun(t, ro).Some? {
          ScriptMarks(t, view, op, u);
          ScriptRunKeeps(t, view, ro);
          LogGrows(log, ScriptRun(t, ro).value.1);
        } else {
          assert UntoldAfter(t, view, op, u) == u;
        }
    }
  }

  // ----- runs -----

  /** Every old-hostname event of the log carried the name that the listener then believed in. */
  ghost predicate HonestLog(log: seq<Event>) {
    forall n | 0 <= n < |log| :: Honest(Believed(log[..n]), log[n])
  }

  lemma HonestGrows(log: seq<Event>, e: Event)
    ensures HonestLog(log + [e]) <==> HonestLog(log) && Honest(Believed(log), e)
  {
    var more := log + [e];
    assert more[..|log|] == log && more[|log|] == e;
    assert forall n | 0 <= n < |log| :: more[..n] == log[..n] && more[n] == log[n];
  }

  lemma HonestPrefix(log: seq<Event>, more: seq<Event>)
    requires log <= more && HonestLog(more)
    ensures HonestLog(log)
  {
    assert forall n | 0 <= n < |log| :: more[..n] == log[..n] && more[n] == log[n];
  }

  lemma {:induction false} RunExtends(t: Table, log: seq<Event>, ops: seq<Op>)
    requires AllPossible(t, log, ops)
    ensures log <= Run(t, log, ops).1
    decreases |ops|
  {
    if ops != [] {
      RunExtends(Do(t, log, ops[0]).0, Do(t, log, ops[0]).1, ops[1..]);
    }
  }

  /** No lost name is announced that was taken before the listener was told it. */
  ghost predicate NoneUntold(t: Table, log: seq<Event>, ops: seq<Op>, u: set<nat>)
    requires AllPossible(t, log, ops)
    decreases |ops|
  {
    ops == []
    || ((forall id | id in u :: !Announces(t, ops[0], id))
        && NoneUntold(Do(t, log, ops[0]).0, Do(t, log, ops[0]).1, ops[1..], UntoldAfter(t, Believed(log), ops[0], u)))
  }

  lemma StepIsHonest(t: Table, log: seq<Event>, op: Op, u: set<nat>)
    requires Good(t, log) && Possible(t, op) && Marks(t, Believed(log), u)
    ensures HonestLog(Do(t, log, op).1) <==> HonestLog(log) && forall id | id in u :: !Announces(t, op, id)
  {
    if op.Script? && ScriptRun(t, op.ro).Some? {
      ScriptMarks(t, Believed(log), op, u);
      HonestGrows(log, ScriptRun(t, op.ro).value.1);
    }
  }

  /**
    Over every run: all old-hostname events carry the name that the listener then believes in if and only if no name is
    announced as lost that was taken from its lease before the listener was told it.
   */
  lemma {:induction false} RunHonestExactly(t: Table, log: seq<Event>, ops: seq<Op>, u: set<nat>)
    requires Good(t, log) && AllPossible(t, log, ops) && Marks(t, Believed(log), u) && HonestLog(log)
    ensures HonestLog(Run(t, log, ops).1) <==> NoneUntold(t, log, ops, u)
    decreases |ops|
  {
    if ops != [] {
      var t', log' := Do(t, log, ops[0]).0, Do(t, log, ops[0]).1;
      DoKeeps(t, log, ops[0]);
      DoMarks(t, log, ops[0], u);
      StepIsHonest(t, log, ops[0], u);
      if HonestLog(log') {
        RunHonestExactly(t', log', ops[1..], UntoldAfter(t, Believed(log), ops[0], u));
      } else {
        RunExtends(t', log', ops[1..]);
        if HonestLog(Run(t', log', ops[1..]).1) {
          HonestPrefix(log', Run(t', log', ops[1..]).1);
        }
      }
    }
  }

  /** A renaming takes only names that the listener knows. */
  ghost predicate TimelyOp(t: Table, view: View, op: Op)
    requires Possible(t, op)
  {
    op.SetName? ==> forall k | 0 <= k < |t.leases| && Takes(t, op.i, op.name, op.auth, k) :: Timely(view, t.leases[k])
  }

  ghost predicate AllTimely(t: Table, log: seq<Event>, ops: seq<Op>)
    requires AllPossible(t, log, ops)
    decreases |ops|
  {
    ops == [] || (TimelyOp(t, Believed(log), ops[0]) && AllTimely(Do(t, log, ops[0]).0, Do(t, log, ops[0]).1, ops[1..]))
  }

  lemma {:induction false} TimelyNoneUntold(t: Table, log: seq<Event>, ops: seq<Op>)
    requires AllPossible(t, log, ops) && AllTimely(t, log, ops)
    ensures NoneUntold(t, log, ops, {})
    decreases |ops|
  {
    if ops != [] {
      assert UntoldAfter(t, Believed(log), ops[0], {}) == {};
      TimelyNoneUntold(Do(t, log, ops[0]).0, Do(t, log, ops[0]).1, ops[1..]);
    }
  }

  /** In particular it is so over every run that takes only names the listener knows, from leases that have lost none. */
  lemma RunIsHonest(t: Table, log: seq<Event>, ops: seq<Op>)
    requires Good(t, log) && AllPossible(t, log, ops) && AllTimely(t, log, ops) && HonestLog(log)
    requires forall l | l in t.leases + t.gone :: Carries(Believed(log), l)
    ensures HonestLog(Run(t, log, ops).1)
  {
    TimelyNoneUntold(t, log, ops);
    RunHonestExactly(t, log, ops, {});
  }
}
