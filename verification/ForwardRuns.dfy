/**
  Whole runs of the forwarding table: over any sequence of queries, replies and clean-ups, a client is sent
  at most one answer for each of its queries that was sent on.
 */
module ForwardRuns {
  import opened Options
  import opened ForwardTable

  /** A client and the id it gave its query. */
  datatype Client = Client(source: int, id: nat)

  /** A query that is sent on, an answer, and a query that is answered at once: with an error, or from the configuration. */
  datatype Event = QueryFrom(who: Client) | AnswerTo(who: Client) | Refusal(who: Client) | Quiet

  predicate WaitsFor(r: Rec, who: Client) {
    Active(r) && r.source == who.source && r.origId == who.id
  }

  /** The records in which a query of the client waits. */
  function Pending(recs: seq<Rec>, who: Client): nat {
    if recs == [] then 0
    else Pending(recs[..|recs| - 1], who) + if WaitsFor(recs[|recs| - 1], who) then 1 else 0
  }

  function Once(e: Client, who: Client): nat {
    if e == who then 1 else 0
  }

  function AskedBy(e: Event, who: Client): nat {
    if e.QueryFrom? || e.Refusal? then Once(e.who, who) else 0
  }

  function ToldTo(e: Event, who: Client): nat {
    if e.AnswerTo? || e.Refusal? then Once(e.who, who) else 0
  }

  /** What an event may do to the queries that wait. */
  ghost predicate Step(before: seq<Rec>, after: seq<Rec>, e: Event) {
    forall who :: Pending(after, who) + ToldTo(e, who) <= Pending(before, who) + AskedBy(e, who)
  }

  lemma RefusalIsQuiet(before: seq<Rec>, after: seq<Rec>, who: Client)
    requires Step(before, after, Quiet)
    ensures Step(before, after, Refusal(who))
  {
    forall w ensures Pending(after, w) + ToldTo(Refusal(who), w) <= Pending(before, w) + AskedBy(Refusal(who), w) {
      assert Pending(after, w) + ToldTo(Quiet, w) <= Pending(before, w) + AskedBy(Quiet, w);
    }
  }

  lemma StepAfterQuiet(before: seq<Rec>, between: seq<Rec>, after: seq<Rec>, e: Event)
    requires Step(before, between, Quiet) && Step(between, after, e)
    ensures Step(before, after, e)
  {
    forall who ensures Pending(after, who) + ToldTo(e, who) <= Pending(before, who) + AskedBy(e, who) {
      assert Pending(between, who) + ToldTo(Quiet, who) <= Pending(before, who) + AskedBy(Quiet, who);
    }
  }

  lemma {:induction false} PendingUpdate(recs: seq<Rec>, i: nat, r: Rec, who: Client)
    requires i < |recs|
    ensures Pending(recs[i := r], who) + (if WaitsFor(recs[i], who) then 1 else 0)
            == Pending(recs, who) + if WaitsFor(r, who) then 1 else 0
  {
    var n := |recs| - 1;
    if i == n {
      assert recs[i := r][..n] == recs[..n];
    } else {
      assert recs[i := r][..n] == recs[..n][i := r];
      PendingUpdate(recs[..n], i, r, who);
    }
  }

  lemma {:induction false} PendingHead(recs: seq<Rec>, r: Rec, who: Client)
    requires !Active(r)
    ensures Pending([r] + recs, who) == Pending(recs, who)
  {
    if recs == [] {
      assert [r] + recs == [r] && [r][..0] == [];
    } else {
      var n := |recs| - 1;
      assert ([r] + recs)[..|recs|] == [r] + recs[..n];
      PendingHead(recs[..n], r, who);
    }
  }

  lemma {:induction false} PendingShrinks(before: seq<Rec>, after: seq<Rec>, who: Client)
    requires |after| == |before| && forall k | 0 <= k < |before| :: after[k] == before[k] || !WaitsFor(after[k], who)
    ensures Pending(after, who) <= Pending(before, who)
  {
    if before != [] {
      var n := |before| - 1;
      PendingShrinks(before[..n], after[..n], who);
    }
  }

  /** Records that are freed or left alone. */
  lemma FreedStep(before: seq<Rec>, after: seq<Rec>)
    requires |after| == |before| && forall k | 0 <= k < |before| :: after[k] == before[k] || !Active(after[k])
    ensures Step(before, after, Quiet)
  {
    forall who ensures Pending(after, who) <= Pending(before, who) {
      PendingShrinks(before, after, who);
    }
  }

  lemma HeadStep(recs: seq<Rec>, r: Rec)
    requires !Active(r)
    ensures Step(recs, [r] + recs, Quiet)
  {
    forall who ensures Pending([r] + recs, who) <= Pending(recs, who) {
      PendingHead(recs, r, who);
    }
  }

  /** A query that takes over record i. */
  lemma AskedStep(before: seq<Rec>, after: seq<Rec>, i: nat, q: Query)
    requires Spared(before, after, i, q) && i < |before| && !Active(before[i])
    requires Active(after[i]) ==> FilledFor(after[i], q)
    ensures Step(before, after, if Active(after[i]) then QueryFrom(Client(q.source, q.id)) else Quiet)
  {
    var freed := after[i := before[i]];
    FreedStep(before, freed);
    forall who ensures Pending(after, who) <= Pending(freed, who) + if Active(after[i]) then Once(Client(q.source, q.id), who) else 0 {
      assert freed[i := after[i]] == after;
      PendingUpdate(freed, i, after[i], who);
    }
    StepAfterQuiet(before, freed, after, if Active(after[i]) then QueryFrom(Client(q.source, q.id)) else Quiet);
  }

  /** A record that goes on waiting for the same client, or that is freed without an answer. */
  lemma WaitingStep(recs: seq<Rec>, i: nat, r: Rec)
    requires i < |recs| && Active(recs[i]) && (!Active(r) || (r.source == recs[i].source && r.origId == recs[i].origId))
    ensures Step(recs, recs[i := r], Quiet)
  {
    forall who ensures Pending(recs[i := r], who) <= Pending(recs, who) {
      PendingUpdate(recs, i, r, who);
    }
  }

  lemma ToldStep(recs: seq<Rec>, i: nat, r: Rec)
    requires i < |recs| && Active(recs[i]) && !Active(r)
    ensures Step(recs, recs[i := r], AnswerTo(Client(recs[i].source, recs[i].origId)))
  {
    forall who ensures Pending(recs[i := r], who) + Once(Client(recs[i].source, recs[i].origId), who) <= Pending(recs, who) {
      PendingUpdate(recs, i, r, who);
    }
  }

  /** What the client of a query sees: a repeated query that cannot be sent again is the one that is answered. */
  function ForwardEvent(q: Query, sent: bool, repeated: bool): Event {
    var who := Client(q.source, q.id);
    if sent then (if repeated then Quiet else QueryFrom(who)) else if repeated then AnswerTo(who) else Refusal(who)
  }

  // ----- runs -----

  function Asks(events: seq<Event>, who: Client): nat {
    if events == [] then 0
    else Asks(events[..|events| - 1], who) + AskedBy(events[|events| - 1], who)
  }

  function Tells(events: seq<Event>, who: Client): nat {
    if events == [] then 0
    else Tells(events[..|events| - 1], who) + ToldTo(events[|events| - 1], who)
  }

  ghost predicate Run(states: seq<seq<Rec>>, events: seq<Event>) {
    |states| == |events| + 1 && forall k | 0 <= k < |events| :: Step(states[k], states[k + 1], events[k])
  }

  /** In every run, the answers a client was sent and the queries it waits for are no more than the queries it asked. */
  lemma {:induction false} AnswersNeverExceedQueries(states: seq<seq<Rec>>, events: seq<Event>, who: Client)
    requires Run(states, events) && states[0] == []
    ensures Tells(events, who) + Pending(states[|events|], who) <= Asks(events, who)
  {
    if events != [] {
      var n := |events| - 1;
      forall k | 0 <= k < n ensures Step(states[..n + 1][k], states[..n + 1][k + 1], events[..n][k]) {
        assert Step(states[k], states[k + 1], events[k]);
      }
      AnswersNeverExceedQueries(states[..n + 1], events[..n], who);
      assert Step(states[n], states[n + 1], events[n]);
    }
  }
}
