/** Worked scenarios of the correlation table: a request that times out and a
    request that is answered, each followed by the stray events that must not fire
    its callback again. */
module Scenarios {
  import opened Wrappers
  import opened Command
  import opened Client
  import opened Runs

  /** The log of a run in which only step `k` fires is that step's firings. */
  lemma {:induction false} LogOfOnlyFiring<C>(steps: seq<Transition<C>>, k: nat)
    requires k < |steps|
    requires forall i | 0 <= i < |steps| && i != k :: steps[i].fired == []
    ensures Log(steps) == steps[k].fired
  {
    LogPrefixOnlyFiring(steps, k, |steps|);
    assert steps[..|steps|] == steps;
  }

  lemma {:induction false} LogPrefixOnlyFiring<C>(steps: seq<Transition<C>>, k: nat, n: nat)
    requires k < |steps| && n <= |steps|
    requires forall i | 0 <= i < |steps| && i != k :: steps[i].fired == []
    ensures Log(steps[..n]) == if n <= k then [] else steps[k].fired
  {
    if n == 0 {
      assert steps[..0] == [];
    } else {
      LogPrefixOnlyFiring(steps, k, n - 1);
      LogStep(steps, n - 1);
    }
  }

  /** A sweep finding nothing expired fires nothing and leaves the table alone. */
  lemma QuietSweep<C>(before: Table<C>, now: int, timeout: int, after: Table<C>, fired: seq<Firing<C>>)
    requires IsSweep(before, now, timeout, after, fired)
    requires Expired(before, now, timeout) == {}
    ensures fired == [] && after == before
  {
    DistinctCount(fired);
  }

  /** A sweep finding exactly one expired entry fires exactly that one, once. */
  lemma SingleExpirySweep<C>(before: Table<C>, now: int, timeout: int, after: Table<C>, fired: seq<Firing<C>>, id: Id)
    requires IsSweep(before, now, timeout, after, fired)
    requires Expired(before, now, timeout) == {id}
    ensures fired == [Firing(id, before[id].callback, StatusRequestTimeout, None)]
    ensures after == before - {id}
  {
    DistinctCount(fired);
    assert fired[0].id in FiredIds(fired);
  }

  /** A request registered at time 0 with a 20-tick timeout is not expired by the tick
      at 20 (its age is not strictly greater), and the tick at 21 fires it once with
      408 and nil data, leaving the table empty. */
  lemma TimeoutScenario<C>(cb: C, decode: Bytes -> Option<TempCommand>, steps: seq<Transition<C>>)
    requires IsRun(map[], [Request("r1", Some(cb), 0), Tick(20), Tick(21)], decode, 20, steps)
    ensures steps[1].fired == []
    ensures Log(steps) == [Firing("r1", cb, StatusRequestTimeout, None)]
    ensures steps[2].handlers == map[]
  {
    var events: seq<Event<C>> := [Request("r1", Some(cb), 0), Tick(20), Tick(21)];
    var t1 := map["r1" := Handler(cb, 0)];
    StepAt(map[], events, decode, 20, steps, 0);
    assert steps[0] == Transition(t1, []);
    StepAt(map[], events, decode, 20, steps, 1);
    assert Expired(t1, 20, 20) == {};
    QuietSweep(t1, 20, 20, steps[1].handlers, steps[1].fired);
    StepAt(map[], events, decode, 20, steps, 2);
    assert Expired(t1, 21, 20) == {"r1"};
    SingleExpirySweep(t1, 21, 20, steps[2].handlers, steps[2].fired, "r1");
    LogOfOnlyFiring(steps, 2);
  }

  /** A response for a pending request fires its callback once with 200 and the raw
      frame; the same response delivered again, and a later tick past the deadline,
      fire nothing. */
  lemma ResponseScenario<C>(cb: C, decode: Bytes -> Option<TempCommand>, frame: Frame, steps: seq<Transition<C>>)
    requires frame.messageType == BinaryMessage
    requires decode(frame.payload).Some?
    requires decode(frame.payload).value.requestId == "r2" && IsResponse(decode(frame.payload).value)
    requires IsRun(map[], [Request("r2", Some(cb), 0), Receive(frame), Receive(frame), Tick(21)], decode, 20, steps)
    ensures Log(steps) == [Firing("r2", cb, StatusOK, Some(frame.payload))]
    ensures steps[3].handlers == map[]
  {
    var events: seq<Event<C>> := [Request("r2", Some(cb), 0), Receive(frame), Receive(frame), Tick(21)];
    var t1 := map["r2" := Handler(cb, 0)];
    StepAt(map[], events, decode, 20, steps, 0);
    assert steps[0] == Transition(t1, []);
    StepAt(map[], events, decode, 20, steps, 1);
    assert ResponseId(frame, decode) == Some("r2");
    var f := Firing("r2", cb, StatusOK, Some(frame.payload));
    assert steps[1].fired == [f];
    FiredIdsSingleton(f);
    assert steps[1].handlers == map[];
    StepAt(map[], events, decode, 20, steps, 2);
    UnknownResponseIsNoop<C>(map[], frame, decode);
    assert steps[2] == Transition(map[], []);
    StepAt(map[], events, decode, 20, steps, 3);
    QuietSweep<C>(map[], 21, 20, steps[3].handlers, steps[3].fired);
    forall i | 0 <= i < |steps| && i != 1 ensures steps[i].fired == [] {
      assert i == 0 || i == 2 || i == 3;
    }
    LogOfOnlyFiring(steps, 1);
  }
}
