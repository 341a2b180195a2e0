/** Sequential interleavings of the three table transitions (client.go): requests
    registered by `SendRequest`, frames handled by the read loop, and ticks of the
    per-second timeout sweep. Each event is one atomic step on the handler table. */
module Runs {
  import opened Wrappers
  import opened Command
  import opened Client

  /** One atomic step: a `SendRequest` with the id it generated, a frame read from the
      connection, or a tick of the sweep timer. */
  datatype Event<C> =
    | Request(id: Id, callback: Option<C>, now: int)
    | Receive(frame: Frame)
    | Tick(now: int)

  /** The table and firings `after` are a possible outcome of `e` on `before`. */
  ghost predicate Step<C>(before: Table<C>, e: Event<C>, decode: Bytes -> Option<TempCommand>, timeout: int,
                          after: Transition<C>)
  {
    match e
    case Request(id, callback, now) =>
      id !in before && after == Transition(Register(before, id, callback, now), [])
    case Receive(frame) =>
      after == Dispatch(before, frame, decode)
    case Tick(now) =>
      IsSweep(before, now, timeout, after.handlers, after.fired)
  }

  /** The table before step `k` of a run starting from `t0`. */
  function TableBefore<C>(t0: Table<C>, steps: seq<Transition<C>>, k: nat): (t: Table<C>)
    requires k <= |steps|
  {
    if k == 0 then t0 else steps[k - 1].handlers
  }

  /** Step `k` of `steps` is a possible outcome of event `k` on the table left by the
      steps before it. */
  ghost predicate StepOk<C>(t0: Table<C>, events: seq<Event<C>>, decode: Bytes -> Option<TempCommand>,
                            timeout: int, steps: seq<Transition<C>>, k: nat)
    requires k < |events| == |steps|
  {
    Step(TableBefore(t0, steps, k), events[k], decode, timeout, steps[k])
  }

  /** `steps` records, event by event, a possible execution of `events` from `t0`. */
  ghost predicate IsRun<C>(t0: Table<C>, events: seq<Event<C>>, decode: Bytes -> Option<TempCommand>,
                           timeout: int, steps: seq<Transition<C>>)
  {
    && |steps| == |events|
    && forall k: nat | k < |events| :: StepOk(t0, events, decode, timeout, steps, k)
  }

  /** Every callback firing of a run, in order. */
  function Log<C>(steps: seq<Transition<C>>): (log: seq<Firing<C>>)
  {
    if steps == [] then [] else Log(steps[..|steps| - 1]) + steps[|steps| - 1].fired
  }

  /** The ids generated by the requests among `events`. */
  function RequestIds<C>(events: seq<Event<C>>): (ids: set<Id>)
  {
    set k | 0 <= k < |events| && events[k].Request? :: events[k].id
  }

  /** The id generator never repeats itself and never hands out an id already pending. */
  ghost predicate FreshRequests<C>(t0: Table<C>, events: seq<Event<C>>)
  {
    && (forall k | 0 <= k < |events| && events[k].Request? :: events[k].id !in t0)
    && (forall j, k | 0 <= j < k < |events| && events[j].Request? && events[k].Request? ::
          events[j].id != events[k].id)
  }

  lemma LogStep<C>(steps: seq<Transition<C>>, n: nat)
    requires n < |steps|
    ensures Log(steps[..n + 1]) == Log(steps[..n]) + steps[n].fired
  {
    assert steps[..n + 1][..n] == steps[..n];
  }

  /** The invariant of a run so far: the log has no repeated id, nothing that fired is
      still pending, and every id fired or pending is among the `known` ones. */
  ghost predicate Inv<C>(log: seq<Firing<C>>, table: Table<C>, known: set<Id>)
  {
    && Distinct(log)
    && FiredIds(log) !! table.Keys
    && FiredIds(log) + table.Keys <= known
  }

  lemma InvRegister<C>(log: seq<Firing<C>>, table: Table<C>, known: set<Id>, id: Id, callback: Option<C>, now: int)
    requires Inv(log, table, known)
    requires id !in known
    ensures Inv(log, Register(table, id, callback, now), known + {id})
  {
  }

  lemma InvRemove<C>(log: seq<Firing<C>>, before: Table<C>, after: Table<C>, fired: seq<Firing<C>>, known: set<Id>)
    requires Inv(log, before, known)
    requires FiresWhatItRemoves(before, after, fired)
    ensures Inv(log + fired, after, known)
  {
    DistinctAppend(log, fired);
  }

  /** The step at index `k` of a run. */
  lemma StepAt<C>(t0: Table<C>, events: seq<Event<C>>, decode: Bytes -> Option<TempCommand>, timeout: int,
                  steps: seq<Transition<C>>, k: nat)
    requires IsRun(t0, events, decode, timeout, steps)
    requires k < |events|
    ensures Step(TableBefore(t0, steps, k), events[k], decode, timeout, steps[k])
  {
    assert StepOk(t0, events, decode, timeout, steps, k);
  }

  lemma RequestIdsStep<C>(events: seq<Event<C>>, m: nat)
    requires m < |events|
    ensures RequestIds(events[..m + 1])
         == RequestIds(events[..m]) + (if events[m].Request? then {events[m].id} else {})
  {
    assert events[..m + 1] == events[..m] + [events[m]];
  }

  lemma FreshAt<C>(t0: Table<C>, events: seq<Event<C>>, m: nat)
    requires FreshRequests(t0, events)
    requires m < |events| && events[m].Request?
    ensures events[m].id !in t0.Keys + RequestIds(events[..m])
  {
    forall k | 0 <= k < m && events[..m][k].Request? ensures events[..m][k].id != events[m].id {
      assert events[..m][k] == events[k];
    }
  }

  /** The invariant holds after the first `n` steps of a run with fresh ids. */
  lemma {:induction false} RunInvariant<C>(t0: Table<C>, events: seq<Event<C>>,
                                           decode: Bytes -> Option<TempCommand>, timeout: int,
                                           steps: seq<Transition<C>>, n: nat)
    requires IsRun(t0, events, decode, timeout, steps)
    requires FreshRequests(t0, events)
    requires n <= |events|
    ensures Inv(Log(steps[..n]), TableBefore(t0, steps, n), t0.Keys + RequestIds(events[..n]))
    decreases n
  {
    if n == 0 {
      assert steps[..0] == [];
      assert events[..0] == [];
    } else {
      var m := n - 1;
      RunInvariant(t0, events, decode, timeout, steps, m);
      var before := TableBefore(t0, steps, m);
      var known := t0.Keys + RequestIds(events[..m]);
      StepAt(t0, events, decode, timeout, steps, m);
      LogStep(steps, m);
      RequestIdsStep(events, m);
      match events[m]
      case Request(id, callback, now) =>
        FreshAt(t0, events, m);
        InvRegister(Log(steps[..m]), before, known, id, callback, now);
        assert Log(steps[..m]) + steps[m].fired == Log(steps[..m]);
      case Receive(frame) =>
        InvRemove(Log(steps[..m]), before, steps[m].handlers, steps[m].fired, known);
      case Tick(now) =>
        InvRemove(Log(steps[..m]), before, steps[m].handlers, steps[m].fired, known);
    }
  }

  /** Single fire and no leak: in any sequential interleaving with fresh ids, no id
      fires twice, no id that fired is left pending, and only pending or registered
      ids ever fire. */
  lemma SingleFire<C>(t0: Table<C>, events: seq<Event<C>>, decode: Bytes -> Option<TempCommand>,
                      timeout: int, steps: seq<Transition<C>>)
    requires IsRun(t0, events, decode, timeout, steps)
    requires FreshRequests(t0, events)
    ensures Distinct(Log(steps))
    ensures FiredIds(Log(steps)) !! TableBefore(t0, steps, |steps|).Keys
    ensures FiredIds(Log(steps)) <= t0.Keys + RequestIds(events)
  {
    RunInvariant(t0, events, decode, timeout, steps, |events|);
    assert steps[..|events|] == steps;
    assert events[..|events|] == events;
  }

  /** One step keeps a pending entry unchanged unless it fires it. */
  lemma {:induction false} PendingStep<C>(before: Table<C>, e: Event<C>, decode: Bytes -> Option<TempCommand>,
                                          timeout: int, after: Transition<C>, id: Id, h: Handler<C>)
    requires Step(before, e, decode, timeout, after)
    requires id in before && before[id] == h
    ensures (id in after.handlers && after.handlers[id] == h) || id in FiredIds(after.fired)
  {
    match e
    case Request(_, _, _) =>
    case Receive(_) =>
      assert FiresWhatItRemoves(before, after.handlers, after.fired);
    case Tick(_) =>
      assert FiresWhatItRemoves(before, after.handlers, after.fired);
  }

  /** Between its registration at step `j` and any later step `m`, a request's entry
      either is still pending, unchanged, or has fired. */
  lemma {:induction false} PendingOrFired<C>(t0: Table<C>, events: seq<Event<C>>,
                                             decode: Bytes -> Option<TempCommand>, timeout: int,
                                             steps: seq<Transition<C>>, j: nat, m: nat)
    requires IsRun(t0, events, decode, timeout, steps)
    requires j < m <= |events|
    requires events[j].Request? && events[j].callback.Some?
    ensures var id := events[j].id;
            var t := TableBefore(t0, steps, m);
            (id in t && t[id] == Handler(events[j].callback.value, events[j].now))
            || id in FiredIds(Log(steps[..m]))
    decreases m
  {
    var id := events[j].id;
    var h := Handler(events[j].callback.value, events[j].now);
    if m == j + 1 {
      StepAt(t0, events, decode, timeout, steps, j);
    } else {
      var p := m - 1;
      PendingOrFired(t0, events, decode, timeout, steps, j, p);
      LogStep(steps, p);
      FiredIdsAppend(Log(steps[..p]), steps[p].fired);
      if id !in FiredIds(Log(steps[..p])) {
        StepAt(t0, events, decode, timeout, steps, p);
        PendingStep(TableBefore(t0, steps, p), events[p], decode, timeout, steps[p], id, h);
      }
    }
  }

  /** Timeout path: a request registered with a callback at step `j` has fired by the
      end of any later tick that comes strictly more than `timeout` after it. */
  lemma FiresByDeadline<C>(t0: Table<C>, events: seq<Event<C>>, decode: Bytes -> Option<TempCommand>,
                           timeout: int, steps: seq<Transition<C>>, j: nat, k: nat)
    requires IsRun(t0, events, decode, timeout, steps)
    requires j < k < |events|
    requires events[j].Request? && events[j].callback.Some?
    requires events[k].Tick? && events[k].now - events[j].now > timeout
    ensures events[j].id in FiredIds(Log(steps[..k + 1]))
  {
    var id := events[j].id;
    PendingOrFired(t0, events, decode, timeout, steps, j, k);
    LogStep(steps, k);
    FiredIdsAppend(Log(steps[..k]), steps[k].fired);
    var before := TableBefore(t0, steps, k);
    StepAt(t0, events, decode, timeout, steps, k);
    if id in before && before[id].ts == events[j].now {
      assert id in Expired(before, events[k].now, timeout);
    }
  }

  /** One step fires an id only with the callback the table holds for it. */
  lemma StepFiresStoredCallback<C>(before: Table<C>, e: Event<C>, decode: Bytes -> Option<TempCommand>,
                                   timeout: int, after: Transition<C>, id: Id, cb: C)
    requires Step(before, e, decode, timeout, after)
    requires id in before ==> before[id].callback == cb
    ensures forall i | 0 <= i < |after.fired| && after.fired[i].id == id :: after.fired[i].callback == cb
  {
    if !e.Request? {
      assert FiresWhatItRemoves(before, after.handlers, after.fired);
    }
  }

  /** Delivery to the right waiter: in a run with fresh ids, every firing of the id
      generated at step `j` carries the callback registered at step `j`. */
  lemma {:induction false} FiringsCarryCallback<C>(t0: Table<C>, events: seq<Event<C>>,
                                                   decode: Bytes -> Option<TempCommand>, timeout: int,
                                                   steps: seq<Transition<C>>, j: nat, m: nat)
    requires IsRun(t0, events, decode, timeout, steps)
    requires FreshRequests(t0, events)
    requires j < m <= |events|
    requires events[j].Request? && events[j].callback.Some?
    ensures forall i | 0 <= i < |Log(steps[..m])| && Log(steps[..m])[i].id == events[j].id ::
              Log(steps[..m])[i].callback == events[j].callback.value
    decreases m
  {
    var id := events[j].id;
    var cb := events[j].callback.value;
    var p := m - 1;
    var before := TableBefore(t0, steps, p);
    var old_log: seq<Firing<C>> := Log(steps[..p]);
    var fired: seq<Firing<C>> := steps[p].fired;
    var log: seq<Firing<C>> := old_log + fired;
    LogStep(steps, p);
    StepAt(t0, events, decode, timeout, steps, p);
    if m == j + 1 {
      // The id is new at step j: nothing fired it before, and a request fires nothing.
      RunInvariant(t0, events, decode, timeout, steps, j);
      FreshAt(t0, events, j);
      assert id !in FiredIds(old_log);
      assert fired == [];
    } else {
      FiringsCarryCallback(t0, events, decode, timeout, steps, j, p);
      PendingOrFired(t0, events, decode, timeout, steps, j, p);
      RunInvariant(t0, events, decode, timeout, steps, p);
      StepFiresStoredCallback(before, events[p], decode, timeout, steps[p], id, cb);
    }
    forall i | 0 <= i < |log| && log[i].id == id
      ensures log[i].callback == cb
    {
      if i < |old_log| {
        assert log[i] == old_log[i];
        assert old_log[i].id in FiredIds(old_log);
      } else {
        assert log[i] == fired[i - |old_log|];
      }
    }
  }

  /** Combining both: with fresh ids, a request whose deadline is passed by a tick
      fires exactly once over the whole run. */
  lemma FiresExactlyOnce<C>(t0: Table<C>, events: seq<Event<C>>, decode: Bytes -> Option<TempCommand>,
                            timeout: int, steps: seq<Transition<C>>, j: nat, k: nat)
    requires IsRun(t0, events, decode, timeout, steps)
    requires FreshRequests(t0, events)
    requires j < k < |events|
    requires events[j].Request? && events[j].callback.Some?
    requires events[k].Tick? && events[k].now - events[j].now > timeout
    ensures exists i | 0 <= i < |Log(steps)| :: Log(steps)[i].id == events[j].id
    ensures forall i1, i2 | 0 <= i1 < |Log(steps)| && 0 <= i2 < |Log(steps)| ::
              Log(steps)[i1].id == events[j].id && Log(steps)[i2].id == events[j].id ==> i1 == i2
    ensures forall i | 0 <= i < |Log(steps)| && Log(steps)[i].id == events[j].id ::
              Log(steps)[i].callback == events[j].callback.value
  {
    FiresByDeadline(t0, events, decode, timeout, steps, j, k);
    SingleFire(t0, events, decode, timeout, steps);
    LogPrefix(steps, k + 1);
    FiringsCarryCallback(t0, events, decode, timeout, steps, j, |events|);
    assert steps[..|events|] == steps;
  }

  /** The log of a prefix of a run is a prefix of the run's log. */
  lemma {:induction false} LogPrefix<C>(steps: seq<Transition<C>>, n: nat)
    requires n <= |steps|
    ensures |Log(steps[..n])| <= |Log(steps)|
    ensures Log(steps[..n]) == Log(steps)[..|Log(steps[..n])|]
    decreases |steps| - n
  {
    if n == |steps| {
      assert steps[..n] == steps;
    } else {
      LogPrefix(steps, n + 1);
      LogStep(steps, n);
    }
  }
}
