/** Properties of the dispatcher that relate several definitions: the reflect loop
    against a plan executor, which endpoints a write or delete reaches and in what
    order, what a failure leaves behind, and what reads see after writes. */
module DispatcherProperties {
  import opened Containers
  import opened Failures
  import opened Containering
  import opened Backends
  import opened Dispatcher

  /** The endpoints a trace called, in call order. */
  function Targets(trace: seq<Event>): (r: seq<nat>)
    ensures |r| == |trace|
    ensures forall k :: 0 <= k < |trace| ==> r[k] == trace[k].endpoint
  {
    if |trace| == 0 then [] else [trace[0].endpoint] + Targets(trace[1..])
  }

  /** The endpoints a reflected (or plain) write or delete is meant to call, in order:
      the default endpoint, then, when reflecting, every endpoint but `skip` upwards. */
  function Plan(n: nat, d: nat, reflect: bool, skip: nat): seq<nat>
  {
    [d] + (if reflect then Ascending(0, n, skip) else [])
  }

  predicate InRange(targets: seq<nat>, n: nat)
  {
    forall k :: 0 <= k < |targets| ==> targets[k] < n
  }

  lemma PlanInRange(n: nat, d: nat, reflect: bool, skip: nat)
    requires d < n
    ensures InRange(Plan(n, d, reflect, skip), n)
  {
    var a := Ascending(0, n, skip);
    assert forall k :: 0 <= k < |a| ==> a[k] in a;
  }

  /** How many calls of a run went through: all of them on success, all but the
      failing last one on failure. */
  function Delivered(r: Sweep): nat
  {
    if r.result.Ok? then |r.trace| else if |r.trace| > 0 then |r.trace| - 1 else 0
  }

  // ---------------------------------------------------------------------------
  // The reflect loop is the plan executor

  lemma AscendingInRange(from: nat, n: nat, skip: nat)
    ensures InRange(Ascending(from, n, skip), n)
  {
    var a := Ascending(from, n, skip);
    assert forall k :: 0 <= k < |a| ==> a[k] in a;
  }

  /** The loop from index `i` on, skipping `skip`, equals running the ascending plan. */
  ghost predicate LoopIsRun(serve: Serve, eps: seq<Backend>, call: Call, skip: nat, i: nat)
  {
    && Faithful(serve)
    && i <= |eps|
    && InRange(Ascending(i, |eps|, skip), |eps|)
    && FanOut(serve, eps, call, skip, i) == Run(serve, eps, call, Ascending(i, |eps|, skip))
  }

  /** The loop that skips one index equals running the ascending plan. */
  lemma {:induction false} FanOutIsRun(serve: Serve, eps: seq<Backend>, call: Call, skip: nat, i: nat)
    requires Faithful(serve)
    requires i <= |eps|
    ensures InRange(Ascending(i, |eps|, skip), |eps|)
    ensures FanOut(serve, eps, call, skip, i) == Run(serve, eps, call, Ascending(i, |eps|, skip))
    decreases |eps| - i
  {
    if i == |eps| {
      AscendingInRange(i, |eps|, skip);
    } else if i == skip {
      FanOutIsRun(serve, eps, call, skip, i + 1);
      LoopSkipStep(serve, eps, call, skip, i);
    } else {
      var resp := serve(eps[i], call);
      if resp.result.Ok? {
        FanOutIsRun(serve, eps[i := resp.after], call, skip, i + 1);
      }
      LoopCallStep(serve, eps, call, skip, i);
    }
  }

  /** At the skipped index the loop and the plan both move on. */
  lemma LoopSkipStep(serve: Serve, eps: seq<Backend>, call: Call, skip: nat, i: nat)
    requires i < |eps| && i == skip
    requires LoopIsRun(serve, eps, call, skip, i + 1)
    ensures LoopIsRun(serve, eps, call, skip, i)
  {
    assert Ascending(i, |eps|, skip) == Ascending(i + 1, |eps|, skip);
  }

  /** At any other index the loop and the plan both call it, and then agree on the rest. */
  lemma LoopCallStep(serve: Serve, eps: seq<Backend>, call: Call, skip: nat, i: nat)
    requires Faithful(serve)
    requires i < |eps| && i != skip
    requires serve(eps[i], call).result.Ok? ==>
      LoopIsRun(serve, eps[i := serve(eps[i], call).after], call, skip, i + 1)
    ensures LoopIsRun(serve, eps, call, skip, i)
  {
    AscendingInRange(i, |eps|, skip);
    var a := Ascending(i, |eps|, skip);
    var resp := serve(eps[i], call);
    var eps' := eps[i := resp.after];
    assert a[0] == i && a[1..] == Ascending(i + 1, |eps|, skip);
    if resp.result.Ok? {
      LoopCallOk(serve, eps, call, skip, i);
    } else {
      assert Run(serve, eps, call, a) == Sweep(resp.result, eps', [Event(i, call)]);
    }
  }

  lemma LoopCallOk(serve: Serve, eps: seq<Backend>, call: Call, skip: nat, i: nat)
    requires Faithful(serve)
    requires i < |eps| && i != skip
    requires InRange(Ascending(i, |eps|, skip), |eps|)
    requires serve(eps[i], call).result.Ok?
    requires LoopIsRun(serve, eps[i := serve(eps[i], call).after], call, skip, i + 1)
    ensures FanOut(serve, eps, call, skip, i) == Run(serve, eps, call, Ascending(i, |eps|, skip))
  {
    var a := Ascending(i, |eps|, skip);
    assert a[0] == i && a[1..] == Ascending(i + 1, |eps|, skip);
    RunFirstOk(serve, eps, call, a);
    FanOutFirstOk(serve, eps, call, skip, i);
  }

  /** The loop at an index it does not skip, whose call succeeds, is that call followed
      by the loop from the next index. */
  lemma FanOutFirstOk(serve: Serve, eps: seq<Backend>, call: Call, skip: nat, i: nat)
    requires Faithful(serve)
    requires i < |eps| && i != skip
    requires serve(eps[i], call).result.Ok?
    ensures var rest := FanOut(serve, eps[i := serve(eps[i], call).after], call, skip, i + 1);
      FanOut(serve, eps, call, skip, i) == Sweep(rest.result, rest.endpoints, [Event(i, call)] + rest.trace)
  {
  }

  /** A run whose first call succeeds is that call followed by the run of the rest. */
  lemma RunFirstOk(serve: Serve, eps: seq<Backend>, call: Call, targets: seq<nat>)
    requires Faithful(serve)
    requires InRange(targets, |eps|) && |targets| > 0
    requires serve(eps[targets[0]], call).result.Ok?
    ensures var rest := Run(serve, eps[targets[0] := serve(eps[targets[0]], call).after], call, targets[1..]);
      Run(serve, eps, call, targets) == Sweep(rest.result, rest.endpoints, [Event(targets[0], call)] + rest.trace)
  {
  }

  /** The shared write discipline runs exactly the plan: the default endpoint first,
      then (when reflecting) every endpoint but `index` in ascending order, stopping at
      the first failure. */
  lemma ReflectRunsPlan(s: Storage, reflect: bool, index: nat, call: Call)
    requires Resolvable(s)
    ensures InRange(Plan(|s.endpoints|, s.defaultEndpoint, reflect, index), |s.endpoints|)
    ensures Faithful(Handle)
    ensures var sweep := Run(Handle, s.endpoints, call, Plan(|s.endpoints|, s.defaultEndpoint, reflect, index));
      Reflect(s, reflect, index, call) == Step(sweep.result, s.(endpoints := sweep.endpoints), sweep.trace)
  {
    var n, d := |s.endpoints|, s.defaultEndpoint;
    HandleFaithful();
    PlanInRange(n, d, reflect, index);
    var plan := Plan(n, d, reflect, index);
    var primary := Handle(s.endpoints[d], call);
    var eps := s.endpoints[d := primary.after];
    assert plan[0] == d;
    assert plan[1..] == if reflect then Ascending(0, n, index) else [];
    if primary.result.Ok? {
      if reflect {
        FanOutIsRun(Handle, eps, call, index, 0);
      } else {
        assert [Event(d, call)] + [] == [Event(d, call)];
      }
    }
  }

  // ---------------------------------------------------------------------------
  // What a run delivers

  /** Every call of a run that went through left its effect behind. */
  ghost predicate EffectsLeft(serve: Serve, eps: seq<Backend>, call: Call, targets: seq<nat>)
  {
    && Faithful(serve)
    && InRange(targets, |eps|)
    && var r := Run(serve, eps, call, targets);
       forall m :: 0 <= m < Delivered(r) ==> Effect(r.endpoints[targets[m]], call)
  }

  /** An endpoint outside the calls of a run that went through is exactly as it was. */
  ghost predicate RestUntouched(serve: Serve, eps: seq<Backend>, call: Call, targets: seq<nat>)
  {
    && Faithful(serve)
    && InRange(targets, |eps|)
    && var r := Run(serve, eps, call, targets);
       forall j :: 0 <= j < |eps| && j !in targets[..Delivered(r)] ==> r.endpoints[j] == eps[j]
  }

  /** Every call of a run that went through left its effect behind, and no later call
      with the same arguments undoes it; an endpoint outside the delivered calls is
      exactly as it was. */
  lemma {:induction false} RunDelivers(serve: Serve, eps: seq<Backend>, call: Call, targets: seq<nat>)
    requires Faithful(serve)
    requires InRange(targets, |eps|)
    ensures var r := Run(serve, eps, call, targets);
      && Delivered(r) <= |targets|
      && (forall m :: 0 <= m < Delivered(r) ==> Effect(r.endpoints[targets[m]], call))
      && forall j :: 0 <= j < |eps| && j !in targets[..Delivered(r)] ==> r.endpoints[j] == eps[j]
    decreases |targets|
  {
    if |targets| > 0 {
      var resp := serve(eps[targets[0]], call);
      if resp.result.Ok? {
        RunDelivers(serve, eps[targets[0] := resp.after], call, targets[1..]);
      }
      DeliverStep(serve, eps, call, targets);
    }
  }

  /** A run delivers its first call and then whatever the rest of it delivers. */
  lemma DeliverStep(serve: Serve, eps: seq<Backend>, call: Call, targets: seq<nat>)
    requires Faithful(serve)
    requires InRange(targets, |eps|) && |targets| > 0
    requires var resp := serve(eps[targets[0]], call);
      resp.result.Ok? ==>
        && InRange(targets[1..], |eps|)
        && EffectsLeft(serve, eps[targets[0] := resp.after], call, targets[1..])
        && RestUntouched(serve, eps[targets[0] := resp.after], call, targets[1..])
    ensures EffectsLeft(serve, eps, call, targets)
    ensures RestUntouched(serve, eps, call, targets)
  {
    var r := Run(serve, eps, call, targets);
    var k := targets[0];
    var resp := serve(eps[k], call);
    var eps' := eps[k := resp.after];
    if resp.result.Ok? {
      var rest := Run(serve, eps', call, targets[1..]);
      RunKeepsEffect(serve, eps', call, targets[1..], k);
      assert Delivered(r) == Delivered(rest) + 1;
      assert forall m :: 1 <= m < Delivered(r) ==> targets[m] == targets[1..][m - 1];
      assert forall j :: j in targets[1..][..Delivered(rest)] ==> j in targets[..Delivered(r)];
    }
  }

  /** What a sweep over `targets` did, seen from outside: it called the targets' first
      ones in order, all of them on success, and stopped at a failing one otherwise;
      every call that went through left its effect, and an endpoint outside those
      calls is exactly as it was (a failure rolls nothing back). */
  ghost predicate Swept(eps: seq<Backend>, call: Call, targets: seq<nat>,
                        result: Result<()>, after: seq<Backend>, trace: seq<Event>)
  {
    && InRange(targets, |eps|)
    && |after| == |eps|
    && |trace| <= |targets|
    && (forall k :: 0 <= k < |trace| ==> trace[k] == Event(targets[k], call))
    && (result.Ok? ==> |trace| == |targets|)
    && (result.Err? ==> |trace| > 0)
    && var done := Delivered(Sweep(result, after, trace));
       && (forall m :: 0 <= m < done ==> Effect(after[targets[m]], call))
       && forall j :: 0 <= j < |eps| && j !in targets[..done] ==> after[j] == eps[j]
  }

  lemma RunSwept(serve: Serve, eps: seq<Backend>, call: Call, targets: seq<nat>)
    requires Faithful(serve)
    requires InRange(targets, |eps|)
    ensures var r := Run(serve, eps, call, targets);
      Swept(eps, call, targets, r.result, r.endpoints, r.trace)
  {
    var r := Run(serve, eps, call, targets);
    RunDelivers(serve, eps, call, targets);
    assert forall j :: j in targets[..Delivered(r)] ==> j in targets;
  }

  /** Every call the sweep `r` delivered succeeds on the state `eps` the sweep started
      from, and a failed sweep answers what its last target answers on that state. */
  ghost predicate AnsweredOnStart(serve: Serve, eps: seq<Backend>, call: Call, targets: seq<nat>, r: Sweep)
    requires InRange(targets, |eps|)
  {
    && |r.trace| <= |targets|
    && (r.result.Err? ==> |r.trace| > 0)
    && (forall m :: 0 <= m < Delivered(r) ==> serve(eps[targets[m]], call).result.Ok?)
    && (r.result.Err? ==> serve(eps[targets[|r.trace| - 1]], call).result == r.result)
  }

  /** A run over distinct targets calls each of them on the state it started with, so
      its answers are those of the calls made on that state. */
  lemma {:induction false} RunFirstFailure(serve: Serve, eps: seq<Backend>, call: Call, targets: seq<nat>)
    requires Faithful(serve)
    requires InRange(targets, |eps|) && Increasing(targets)
    ensures AnsweredOnStart(serve, eps, call, targets, Run(serve, eps, call, targets))
    decreases |targets|
  {
    if |targets| > 0 {
      var resp := serve(eps[targets[0]], call);
      if resp.result.Ok? {
        IncreasingTail(targets);
        RunFirstFailure(serve, eps[targets[0] := resp.after], call, targets[1..]);
      }
      FirstFailureStep(serve, eps, call, targets);
    }
  }

  /** A run over distinct targets answers on its start state what its first call and
      then the rest of it answer. */
  lemma FirstFailureStep(serve: Serve, eps: seq<Backend>, call: Call, targets: seq<nat>)
    requires Faithful(serve)
    requires InRange(targets, |eps|) && Increasing(targets) && |targets| > 0
    requires var resp := serve(eps[targets[0]], call);
      resp.result.Ok? ==>
        && InRange(targets[1..], |eps|)
        && AnsweredOnStart(serve, eps[targets[0] := resp.after], call, targets[1..],
                           Run(serve, eps[targets[0] := resp.after], call, targets[1..]))
    ensures AnsweredOnStart(serve, eps, call, targets, Run(serve, eps, call, targets))
  {
    var r := Run(serve, eps, call, targets);
    var k := targets[0];
    var resp := serve(eps[k], call);
    var eps' := eps[k := resp.after];
    if resp.result.Ok? {
      var rest := Run(serve, eps', call, targets[1..]);
      assert r == Sweep(rest.result, rest.endpoints, [Event(k, call)] + rest.trace);
      forall m | 1 <= m < |targets|
        ensures targets[m] == targets[1..][m - 1] && eps'[targets[m]] == eps[targets[m]]
      {
        assert k < targets[m];
      }
      forall m | 0 <= m < Delivered(r) ensures serve(eps[targets[m]], call).result.Ok? {
        if m > 0 {
          assert m - 1 < Delivered(rest);
        }
      }
      if r.result.Err? {
        assert targets[|r.trace| - 1] == targets[1..][|rest.trace| - 1];
      }
    }
  }

  lemma IncreasingTail(r: seq<nat>)
    requires Increasing(r) && |r| > 0
    ensures Increasing(r[1..])
  {
    forall a, b | 0 <= a < b < |r[1..]| ensures r[1..][a] < r[1..][b] {
      assert r[1..][a] == r[a + 1] && r[1..][b] == r[b + 1];
    }
  }

  /** Repeating a call never undoes its own effect: a failing call changes nothing and
      a successful one leaves the effect in place. */
  lemma {:induction false} RunKeepsEffect(serve: Serve, eps: seq<Backend>, call: Call, targets: seq<nat>, j: nat)
    requires Faithful(serve)
    requires InRange(targets, |eps|) && j < |eps|
    requires Effect(eps[j], call)
    ensures Effect(Run(serve, eps, call, targets).endpoints[j], call)
    decreases |targets|
  {
    if |targets| > 0 {
      var resp := serve(eps[targets[0]], call);
      if resp.result.Ok? {
        RunKeepsEffect(serve, eps[targets[0] := resp.after], call, targets[1..], j);
      }
    }
  }

  /** A successful call keeps every endpoint's failure oracle. */
  lemma ServeKeepsFaults(serve: Serve, eps: seq<Backend>, call: Call, k: nat)
    requires Faithful(serve)
    requires k < |eps|
    ensures var eps' := eps[k := serve(eps[k], call).after];
      forall t :: 0 <= t < |eps| ==> eps'[t].faults == eps[t].faults
  {
  }

  /** For writes, whose only failures come from the oracle, a run succeeds exactly when
      no target faults on the call. */
  lemma {:induction false} RunWriteSucceeds(serve: Serve, eps: seq<Backend>, call: Call, targets: seq<nat>)
    requires Faithful(serve)
    requires IsWrite(call) && InRange(targets, |eps|)
    ensures Run(serve, eps, call, targets).result.Ok? <==> forall k :: 0 <= k < |targets| ==> !Faulty(eps[targets[k]], call)
    decreases |targets|
  {
    if |targets| > 0 {
      var k := targets[0];
      var resp := serve(eps[k], call);
      var eps' := eps[k := resp.after];
      if resp.result.Ok? {
        RunWriteSucceeds(serve, eps', call, targets[1..]);
        ServeKeepsFaults(serve, eps, call, k);
        assert forall m :: 1 <= m < |targets| ==> targets[m] == targets[1..][m - 1];
      }
    }
  }

  /** A failed run of a write ends at the target that faulted, and its fault is the
      answer. */
  lemma {:induction false} RunWriteFails(serve: Serve, eps: seq<Backend>, call: Call, targets: seq<nat>)
    requires Faithful(serve)
    requires IsWrite(call) && InRange(targets, |eps|)
    requires Run(serve, eps, call, targets).result.Err?
    ensures var r := Run(serve, eps, call, targets);
      && Faulty(eps[targets[|r.trace| - 1]], call)
      && r.result.error == FaultOf(eps[targets[|r.trace| - 1]], call)
    decreases |targets|
  {
    var r := Run(serve, eps, call, targets);
    var k := targets[0];
    var resp := serve(eps[k], call);
    var eps' := eps[k := resp.after];
    if resp.result.Ok? {
      var rest := Run(serve, eps', call, targets[1..]);
      RunWriteFails(serve, eps', call, targets[1..]);
      ServeKeepsFaults(serve, eps, call, k);
      assert targets[|r.trace| - 1] == targets[1..][|rest.trace| - 1];
    }
  }

  /** A write run calls a faulting target only last: every target before its last call
      does not fault, so a failed run stops at the first target that faults. */
  lemma {:induction false} RunWritePassesEarlier(serve: Serve, eps: seq<Backend>, call: Call, targets: seq<nat>)
    requires Faithful(serve)
    requires IsWrite(call) && InRange(targets, |eps|)
    ensures var r := Run(serve, eps, call, targets);
      forall m :: 0 <= m < |r.trace| - 1 ==> !Faulty(eps[targets[m]], call)
    decreases |targets|
  {
    var r := Run(serve, eps, call, targets);
    if |targets| > 0 {
      var k := targets[0];
      var resp := serve(eps[k], call);
      var eps' := eps[k := resp.after];
      if resp.result.Ok? {
        RunWritePassesEarlier(serve, eps', call, targets[1..]);
        ServeKeepsFaults(serve, eps, call, k);
        assert forall m :: 1 <= m < |r.trace| - 1 ==> targets[m] == targets[1..][m - 1];
      }
    }
  }

  // ---------------------------------------------------------------------------
  // Visit counts of a plan

  lemma {:induction false} IncreasingCount(r: seq<nat>, j: int)
    requires Increasing(r)
    ensures multiset(r)[j] == if j in r then 1 else 0
  {
    if |r| > 0 {
      assert r == [r[0]] + r[1..];
      assert Increasing(r[1..]) by {
        forall a, b | 0 <= a < b < |r[1..]| ensures r[1..][a] < r[1..][b] {
          assert r[1..][a] == r[a + 1] && r[1..][b] == r[b + 1];
        }
      }
      IncreasingCount(r[1..], j);
      assert forall a :: 0 <= a < |r[1..]| ==> r[0] < r[1..][a] by {
        forall a | 0 <= a < |r[1..]| ensures r[0] < r[1..][a] {
          assert r[1..][a] == r[a + 1];
        }
      }
      assert r[0] !in r[1..];
    }
  }

  /** Reflecting with the default as the skipped index calls every endpoint exactly once. */
  lemma PlanVisitsEachOnce(n: nat, d: nat)
    requires d < n
    ensures forall j :: 0 <= j < n ==> multiset(Plan(n, d, true, d))[j] == 1
    ensures forall j :: j >= n ==> multiset(Plan(n, d, true, d))[j] == 0
  {
    var a := Ascending(0, n, d);
    var plan := Plan(n, d, true, d);
    AscendingIncreases(0, n, d);
    assert multiset(plan) == multiset{d} + multiset(a);
    forall j: nat | j < n ensures multiset(Plan(n, d, true, d))[j] == 1 {
      IncreasingCount(a, j);
      assert (j in a) <==> j != d;
    }
    forall j: nat | j >= n ensures multiset(Plan(n, d, true, d))[j] == 0 {
      IncreasingCount(a, j);
    }
  }

  /** Reflecting with an explicit index other than the default never calls that index
      and calls the default twice; every other endpoint once. */
  lemma PlanWithOtherIndex(n: nat, d: nat, index: nat)
    requires d < n && index < n && index != d
    ensures multiset(Plan(n, d, true, index))[index] == 0
    ensures multiset(Plan(n, d, true, index))[d] == 2
    ensures forall j :: 0 <= j < n && j != d && j != index ==> multiset(Plan(n, d, true, index))[j] == 1
  {
    var a := Ascending(0, n, index);
    AscendingIncreases(0, n, index);
    assert multiset(Plan(n, d, true, index)) == multiset{d} + multiset(a);
    IncreasingCount(a, index);
    IncreasingCount(a, d);
    forall j | 0 <= j < n && j != d && j != index ensures multiset(Plan(n, d, true, index))[j] == 1 {
      IncreasingCount(a, j);
    }
  }

  /** Reflecting with an explicit index no endpoint has skips nothing: the default is
      called twice and every other endpoint once. */
  lemma PlanWithOutOfRangeIndex(n: nat, d: nat, index: nat)
    requires d < n <= index
    ensures multiset(Plan(n, d, true, index))[d] == 2
    ensures forall j :: 0 <= j < n && j != d ==> multiset(Plan(n, d, true, index))[j] == 1
    ensures forall j :: j >= n ==> multiset(Plan(n, d, true, index))[j] == 0
  {
    var a := Ascending(0, n, index);
    AscendingIncreases(0, n, index);
    assert multiset(Plan(n, d, true, index)) == multiset{d} + multiset(a);
    IncreasingCount(a, d);
    forall j | 0 <= j < n && j != d ensures multiset(Plan(n, d, true, index))[j] == 1 {
      IncreasingCount(a, j);
    }
    forall j: nat | j >= n ensures multiset(Plan(n, d, true, index))[j] == 0 {
      IncreasingCount(a, j);
    }
  }

  // ---------------------------------------------------------------------------
  // Writes

  /** What a write over `targets` amounts to, seen from outside: the endpoints called
      are the targets' first ones, all of them on success; it succeeds exactly when
      no target faults on the call; no endpoint called before the last one faults, and
      a failure is the fault of the last endpoint called;
      every call that went through left its effect, with no rollback; every other
      endpoint is untouched. */
  ghost predicate WriteOutcome(before: seq<Backend>, call: Call, targets: seq<nat>,
                               result: Result<()>, after: seq<Backend>, trace: seq<Event>)
  {
    var done := if result.Ok? then |trace| else |trace| - 1;
    && InRange(targets, |before|)
    && |after| == |before|
    && 1 <= |trace| <= |targets|
    && (forall k :: 0 <= k < |trace| ==> trace[k] == Event(targets[k], call))
    && (result.Ok? <==> forall k :: 0 <= k < |targets| ==> !Faulty(before[targets[k]], call))
    && (result.Ok? ==> |trace| == |targets|)
    && (forall m :: 0 <= m < |trace| - 1 ==> !Faulty(before[targets[m]], call))
    && (result.Err? ==>
          && Faulty(before[targets[|trace| - 1]], call)
          && result.error == FaultOf(before[targets[|trace| - 1]], call))
    && (forall m :: 0 <= m < done ==> Effect(after[targets[m]], call))
    && (forall j :: 0 <= j < |before| && j !in targets[..done] ==> after[j] == before[j])
  }

  /** A run of a write has that outcome. */
  lemma RunWriteSummary(serve: Serve, eps: seq<Backend>, call: Call, targets: seq<nat>)
    requires Faithful(serve)
    requires IsWrite(call) && InRange(targets, |eps|) && |targets| > 0
    ensures var r := Run(serve, eps, call, targets);
      WriteOutcome(eps, call, targets, r.result, r.endpoints, r.trace)
  {
    var r := Run(serve, eps, call, targets);
    RunDelivers(serve, eps, call, targets);
    RunWriteSucceeds(serve, eps, call, targets);
    RunWritePassesEarlier(serve, eps, call, targets);
    if r.result.Err? {
      RunWriteFails(serve, eps, call, targets);
    }
  }

  /** A write of an encoded container or batch has that outcome over the plan. */
  lemma ReflectWriteFollowsPlan(s: Storage, reflect: bool, index: nat, call: Call)
    requires IsWrite(call) && Resolvable(s)
    ensures var r := Reflect(s, reflect, index, call);
      WriteOutcome(s.endpoints, call, Plan(|s.endpoints|, s.defaultEndpoint, reflect, index),
                   r.result, r.storage.endpoints, r.trace)
  {
    var plan := Plan(|s.endpoints|, s.defaultEndpoint, reflect, index);
    ReflectRunsPlan(s, reflect, index, call);
    RunWriteSummary(Handle, s.endpoints, call, plan);
  }

  /** `write_container` without reflection calls the default endpoint alone, whatever
      explicit index is passed, and changes no other endpoint. */
  lemma WriteWithoutReflect<T>(s: Storage, codec: Codec<T>, item: T, endpointIndex: Option<nat>)
    requires codec.toContainer(item).Ok? && Resolvable(s)
    ensures var c := codec.toContainer(item).value;
      var r := WriteContainer(s, codec, item, endpointIndex, false);
      && r.trace == [Event(s.defaultEndpoint, WriteOne(c))]
      && (r.result.Ok? <==> !Faulty(s.endpoints[s.defaultEndpoint], WriteOne(c)))
      && (r.result.Ok? ==> Lookup(r.storage.endpoints[s.defaultEndpoint].entries, c.id) == Some(c))
      && forall j :: 0 <= j < |s.endpoints| && j != s.defaultEndpoint ==> r.storage.endpoints[j] == s.endpoints[j]
  {
    var c := codec.toContainer(item).value;
    ReflectWriteFollowsPlan(s, false, TargetIndex(s, endpointIndex), WriteOne(c));
  }

  /** Every endpoint has a place in the plan that skips the default. */
  lemma PlanCovers(n: nat, d: nat, j: nat)
    requires d < n && j < n
    ensures exists m :: 0 <= m < |Plan(n, d, true, d)| && Plan(n, d, true, d)[m] == j
  {
    var plan := Plan(n, d, true, d);
    if j == d {
      assert plan[0] == j;
    } else {
      var a := Ascending(0, n, d);
      assert j in a;
      var m :| 0 <= m < |a| && a[m] == j;
      assert plan[m + 1] == j;
    }
  }

  /** A write outcome over the plan that skips the default concerns every endpoint:
      it succeeds exactly when none faults, and then all of them hold the write. */
  lemma FullPlanOutcome(before: seq<Backend>, call: Call, d: nat, result: Result<()>, after: seq<Backend>, trace: seq<Event>)
    requires d < |before|
    requires WriteOutcome(before, call, Plan(|before|, d, true, d), result, after, trace)
    ensures result.Ok? <==> forall j :: 0 <= j < |before| ==> !Faulty(before[j], call)
    ensures result.Ok? ==> forall j :: 0 <= j < |before| ==> Effect(after[j], call)
    ensures result.Ok? ==> forall j :: 0 <= j < |before| ==> multiset(Targets(trace))[j] == 1
  {
    var n := |before|;
    var plan := Plan(n, d, true, d);
    if result.Ok? {
      FullTraceVisitsEachOnce(n, d, trace);
      forall j | 0 <= j < n ensures !Faulty(before[j], call) && Effect(after[j], call) {
        PlanCovers(n, d, j);
        var m :| 0 <= m < |plan| && plan[m] == j;
        assert Effect(after[plan[m]], call);
      }
    } else {
      var k := |trace| - 1;
      assert Faulty(before[plan[k]], call);
    }
  }

  /** Reflecting a write with no explicit index (or the default's own index) follows
      the plan that calls every endpoint exactly once, the default first and the rest
      in ascending order; it succeeds exactly when no endpoint faults, and then every
      endpoint holds the container. */
  lemma WriteReflectReachesAll<T>(s: Storage, codec: Codec<T>, item: T, endpointIndex: Option<nat>)
    requires codec.toContainer(item).Ok? && Resolvable(s)
    requires endpointIndex == None || endpointIndex == Some(s.defaultEndpoint)
    ensures var c := codec.toContainer(item).value;
      var r := WriteContainer(s, codec, item, endpointIndex, true);
      var n := |s.endpoints|;
      && |r.trace| <= |Plan(n, s.defaultEndpoint, true, s.defaultEndpoint)|
      && (forall k :: 0 <= k < |r.trace| ==> r.trace[k] == Event(Plan(n, s.defaultEndpoint, true, s.defaultEndpoint)[k], WriteOne(c)))
      && (r.result.Ok? <==> forall j :: 0 <= j < n ==> !Faulty(s.endpoints[j], WriteOne(c)))
      && (r.result.Ok? ==>
            && |r.trace| == n
            && (forall j :: 0 <= j < n ==> multiset(Targets(r.trace))[j] == 1)
            && forall j :: 0 <= j < n ==> Lookup(r.storage.endpoints[j].entries, c.id) == Some(c))
  {
    var c := codec.toContainer(item).value;
    var n, d := |s.endpoints|, s.defaultEndpoint;
    var r := WriteContainer(s, codec, item, endpointIndex, true);
    ReflectWriteFollowsPlan(s, true, d, WriteOne(c));
    assert r == Reflect(s, true, d, WriteOne(c));
    FullPlanOutcome(s.endpoints, WriteOne(c), d, r.result, r.storage.endpoints, r.trace);
    AscendingLength(n, d);
  }

  /** A trace that followed the whole one-visit plan called every endpoint exactly once. */
  lemma FullTraceVisitsEachOnce(n: nat, d: nat, trace: seq<Event>)
    requires d < n
    requires |trace| == |Plan(n, d, true, d)|
    requires forall k :: 0 <= k < |trace| ==> trace[k].endpoint == Plan(n, d, true, d)[k]
    ensures forall j :: 0 <= j < n ==> multiset(Targets(trace))[j] == 1
  {
    assert Targets(trace) == Plan(n, d, true, d);
    PlanVisitsEachOnce(n, d);
  }

  /** A write outcome over a plan that skips an index other than the default never
      touches that index, and on success has called the default twice. */
  lemma SkipOutcome(before: seq<Backend>, call: Call, d: nat, index: nat, result: Result<()>, after: seq<Backend>, trace: seq<Event>)
    requires d < |before| && index < |before| && index != d
    requires WriteOutcome(before, call, Plan(|before|, d, true, index), result, after, trace)
    ensures index !in Targets(trace)
    ensures after[index] == before[index]
    ensures result.Ok? ==> multiset(Targets(trace))[d] == 2
  {
    var plan := Plan(|before|, d, true, index);
    var t := Targets(trace);
    var done := if result.Ok? then |trace| else |trace| - 1;
    assert forall k :: 0 <= k < |plan| ==> plan[k] != index by {
      forall k | 0 <= k < |plan| ensures plan[k] != index {
        if k > 0 {
          var a := Ascending(0, |before|, index);
          assert plan[k] == a[k - 1] && a[k - 1] in a;
        }
      }
    }
    assert forall k :: 0 <= k < |t| ==> t[k] == plan[k];
    assert index !in plan[..done];
    if result.Ok? {
      assert t == plan;
      PlanWithOtherIndex(|before|, d, index);
    }
  }

  /** Reflecting a write with an explicit index other than the default never calls
      that endpoint, which keeps its state; on success the default endpoint is called
      twice, first as the primary and again by the loop. */
  lemma WriteReflectSkipsExplicitIndex<T>(s: Storage, codec: Codec<T>, item: T, index: nat)
    requires codec.toContainer(item).Ok? && Resolvable(s)
    requires index < |s.endpoints| && index != s.defaultEndpoint
    ensures var r := WriteContainer(s, codec, item, Some(index), true);
      && index !in Targets(r.trace)
      && r.storage.endpoints[index] == s.endpoints[index]
      && (r.result.Ok? ==> multiset(Targets(r.trace))[s.defaultEndpoint] == 2)
  {
    var c := codec.toContainer(item).value;
    var r := WriteContainer(s, codec, item, Some(index), true);
    ReflectWriteFollowsPlan(s, true, index, WriteOne(c));
    assert r == Reflect(s, true, index, WriteOne(c));
    SkipOutcome(s.endpoints, WriteOne(c), s.defaultEndpoint, index, r.result, r.storage.endpoints, r.trace);
  }

  /** A failed write stopped at the first endpoint that faults: the endpoints called are
      the targets' first ones, ending with the one that faulted, whose fault is the
      answer, while none called before it faults; every endpoint called before it holds
      the write and nothing else changed. */
  ghost predicate StoppedAt(before: seq<Backend>, call: Call, targets: seq<nat>,
                            result: Result<()>, after: seq<Backend>, trace: seq<Event>)
  {
    var last := |trace| - 1;
    && result.Err?
    && 0 <= last < |targets|
    && InRange(targets, |before|)
    && |after| == |before|
    && (forall k :: 0 <= k <= last ==> trace[k] == Event(targets[k], call))
    && (forall m :: 0 <= m < last ==> !Faulty(before[targets[m]], call))
    && Faulty(before[targets[last]], call)
    && result.error == FaultOf(before[targets[last]], call)
    && (forall m :: 0 <= m < last ==> Effect(after[targets[m]], call))
    && forall j :: 0 <= j < |before| && j !in targets[..last] ==> after[j] == before[j]
  }

  lemma StopOutcome(before: seq<Backend>, call: Call, targets: seq<nat>, result: Result<()>, after: seq<Backend>, trace: seq<Event>)
    requires result.Err?
    requires WriteOutcome(before, call, targets, result, after, trace)
    ensures StoppedAt(before, call, targets, result, after, trace)
  {
  }

  /** The fan-out of `write_container` stops at the first failing endpoint: a failed
      write stopped at the endpoint that faulted, after which nothing was called, and
      the primary and every endpoint called before keep the container, with no
      rollback. */
  lemma WriteShortCircuit<T>(s: Storage, codec: Codec<T>, item: T, endpointIndex: Option<nat>, reflect: bool)
    requires codec.toContainer(item).Ok? && Resolvable(s)
    requires WriteContainer(s, codec, item, endpointIndex, reflect).result.Err?
    ensures var c := codec.toContainer(item).value;
      var r := WriteContainer(s, codec, item, endpointIndex, reflect);
      StoppedAt(s.endpoints, WriteOne(c), Plan(|s.endpoints|, s.defaultEndpoint, reflect, TargetIndex(s, endpointIndex)),
                r.result, r.storage.endpoints, r.trace)
  {
    var c := codec.toContainer(item).value;
    var plan := Plan(|s.endpoints|, s.defaultEndpoint, reflect, TargetIndex(s, endpointIndex));
    var r := WriteContainer(s, codec, item, endpointIndex, reflect);
    ReflectWriteFollowsPlan(s, reflect, TargetIndex(s, endpointIndex), WriteOne(c));
    assert r == Reflect(s, reflect, TargetIndex(s, endpointIndex), WriteOne(c));
    StopOutcome(s.endpoints, WriteOne(c), plan, r.result, r.storage.endpoints, r.trace);
  }

  /** `write_containers` encodes the whole batch before any call: a failure to encode
      any item calls nothing and leaves every endpoint untouched. Once encoded, the
      batch follows the same plan as a single write, one call per endpoint. */
  lemma WriteContainersFollowsPlan<T>(s: Storage, codec: Codec<T>, items: seq<T>, endpointIndex: Option<nat>, reflect: bool)
    requires Resolvable(s)
    ensures InRange(Plan(|s.endpoints|, s.defaultEndpoint, reflect, TargetIndex(s, endpointIndex)), |s.endpoints|)
    ensures var r := WriteContainers(s, codec, items, endpointIndex, reflect);
      && ((exists k :: 0 <= k < |items| && codec.toContainer(items[k]).Err?) ==>
            r.result.Err? && r.storage == s && r.trace == [])
      && ((forall k :: 0 <= k < |items| ==> codec.toContainer(items[k]).Ok?) ==>
            var call := WriteMany(EncodeAll(codec, items).value);
            var plan := Plan(|s.endpoints|, s.defaultEndpoint, reflect, TargetIndex(s, endpointIndex));
            && 1 <= |r.trace| <= |plan|
            && (forall k :: 0 <= k < |r.trace| ==> r.trace[k] == Event(plan[k], call))
            && (r.result.Ok? <==> forall k :: 0 <= k < |plan| ==> !Faulty(s.endpoints[plan[k]], call))
            && (r.result.Ok? ==> |r.trace| == |plan| && forall m :: 0 <= m < |plan| ==> Effect(r.storage.endpoints[plan[m]], call)))
  {
    PlanInRange(|s.endpoints|, s.defaultEndpoint, reflect, TargetIndex(s, endpointIndex));
    if forall k :: 0 <= k < |items| ==> codec.toContainer(items[k]).Ok? {
      ReflectWriteFollowsPlan(s, reflect, TargetIndex(s, endpointIndex), WriteMany(EncodeAll(codec, items).value));
    }
  }

  // ---------------------------------------------------------------------------
  // Reads

  /** Reads see only the default endpoint: two dispatchers whose default endpoints are
      in the same state answer every read alike, whatever their other endpoints hold. */
  lemma ReadsComeFromDefault(s1: Storage, s2: Storage, id: ContainerId, ids: seq<ContainerId>)
    requires Resolvable(s1) && Resolvable(s2) && s1.defaultEndpoint == s2.defaultEndpoint
    requires s1.endpoints[s1.defaultEndpoint] == s2.endpoints[s2.defaultEndpoint]
    ensures GetContainerIds(s1).result == GetContainerIds(s2).result
    ensures ExistsContainer(s1, id).result == ExistsContainer(s2, id).result
    ensures ReadContainer(s1, id).result == ReadContainer(s2, id).result
    ensures ReadContainers(s1, ids).result == ReadContainers(s2, ids).result
    ensures ReadAllContainers(s1).result == ReadAllContainers(s2).result
  {
  }

  /** After a successful write, the dispatcher reads the written container back (unless
      the default endpoint's read faults), reports its id as existing, and, for an
      object that satisfies the round-trip law, decodes it to the object. */
  lemma WriteThenRead<T>(s: Storage, codec: Codec<T>, item: T, endpointIndex: Option<nat>, reflect: bool)
    requires WriteContainer(s, codec, item, endpointIndex, reflect).result.Ok?
    ensures codec.toContainer(item).Ok? && Resolvable(s)
    ensures var c := codec.toContainer(item).value;
      var after := WriteContainer(s, codec, item, endpointIndex, reflect).storage;
      && (!Faulty(s.endpoints[s.defaultEndpoint], ReadOne(c.id)) ==>
            && ReadContainer(after, c.id).result == Ok(c)
            && (RoundTrips(codec, item) ==> codec.fromContainer(ReadContainer(after, c.id).result.value) == Ok(item)))
      && (!Faulty(s.endpoints[s.defaultEndpoint], ExistsOne(c.id)) ==> ExistsContainer(after, c.id).result == Ok(true))
  {
    WriteLandsOnDefault(s, codec, item, endpointIndex, reflect);
  }

  /** After a successful write, the dispatcher lists the written container's id and
      returns the container among all of them (unless the default endpoint faults on
      those calls). */
  lemma WriteThenListAll<T>(s: Storage, codec: Codec<T>, item: T, endpointIndex: Option<nat>, reflect: bool)
    requires WriteContainer(s, codec, item, endpointIndex, reflect).result.Ok?
    ensures codec.toContainer(item).Ok? && Resolvable(s)
    ensures var c := codec.toContainer(item).value;
      var after := WriteContainer(s, codec, item, endpointIndex, reflect).storage;
      && (!Faulty(s.endpoints[s.defaultEndpoint], ListIds) ==>
            GetContainerIds(after).result.Ok? && c.id in GetContainerIds(after).result.value)
      && (!Faulty(s.endpoints[s.defaultEndpoint], ReadAll) ==>
            ReadAllContainers(after).result.Ok? && c in ReadAllContainers(after).result.value)
  {
    var c := codec.toContainer(item).value;
    var r := WriteContainer(s, codec, item, endpointIndex, reflect);
    WriteLandsOnDefault(s, codec, item, endpointIndex, reflect);
    StoredIsListed(r.storage, c);
  }

  /** A successful write leaves the container stored at the default endpoint, whose
      failure oracle it keeps. */
  lemma WriteLandsOnDefault<T>(s: Storage, codec: Codec<T>, item: T, endpointIndex: Option<nat>, reflect: bool)
    requires WriteContainer(s, codec, item, endpointIndex, reflect).result.Ok?
    ensures codec.toContainer(item).Ok? && Resolvable(s)
    ensures var c, d := codec.toContainer(item).value, s.defaultEndpoint;
      var after := WriteContainer(s, codec, item, endpointIndex, reflect).storage;
      && Resolvable(after) && after.defaultEndpoint == d
      && Lookup(after.endpoints[d].entries, c.id) == Some(c)
      && after.endpoints[d].faults == s.endpoints[d].faults
  {
    var c, d := codec.toContainer(item).value, s.defaultEndpoint;
    var r := WriteContainer(s, codec, item, endpointIndex, reflect);
    var plan := Plan(|s.endpoints|, d, reflect, TargetIndex(s, endpointIndex));
    ReflectWriteFollowsPlan(s, reflect, TargetIndex(s, endpointIndex), WriteOne(c));
    assert r == Reflect(s, reflect, TargetIndex(s, endpointIndex), WriteOne(c));
    assert plan[0] == d;
    assert Effect(r.storage.endpoints[d], WriteOne(c));
  }

  /** A container stored at the default endpoint is listed and read back in full,
      unless the default endpoint faults on those calls. */
  lemma StoredIsListed(s: Storage, c: Container)
    requires Resolvable(s) && Lookup(s.endpoints[s.defaultEndpoint].entries, c.id) == Some(c)
    ensures !Faulty(s.endpoints[s.defaultEndpoint], ListIds) ==>
      GetContainerIds(s).result.Ok? && c.id in GetContainerIds(s).result.value
    ensures !Faulty(s.endpoints[s.defaultEndpoint], ReadAll) ==>
      ReadAllContainers(s).result.Ok? && c in ReadAllContainers(s).result.value
  {
    var b := s.endpoints[s.defaultEndpoint];
    var k :| 0 <= k < |b.entries| && b.entries[k] == c;
    if !Faulty(b, ListIds) {
      assert GetContainerIds(s).result.value[k] == c.id;
    }
  }

  /** `read_containers` answers, in request order, the default endpoint's stored
      container for every requested id it holds. */
  lemma ReadContainersKeepsOrder(s: Storage, ids: seq<ContainerId>)
    ensures var r := ReadContainers(s, ids);
      r.result.Ok? ==>
        && Resolvable(s)
        && var entries := s.endpoints[s.defaultEndpoint].entries;
           var p := Positions(Held(entries, ids), 0);
           && |r.result.value| == |p|
           && forall m :: 0 <= m < |p| ==> Lookup(entries, ids[p[m]]) == Some(r.result.value[m])
  {
    if Resolvable(s) {
      ReadBatchKeepsOrder(s.endpoints[s.defaultEndpoint], ids);
    }
  }

  // ---------------------------------------------------------------------------
  // Deletes

  /** The reflected part of `delete_container` is the plan executor run over every
      endpoint but the default, in ascending order, with the return flag cleared. */
  lemma DeleteRunsPlan(s: Storage, id: ContainerId, returnContainer: bool)
    requires Resolvable(s)
    ensures Faithful(Handle)
    ensures var d := s.defaultEndpoint;
      var primary := Delete(s.endpoints[d], id, returnContainer);
      var rest := Ascending(0, |s.endpoints|, d);
      && InRange(rest, |s.endpoints|)
      && (primary.result.Ok? ==>
            var sweep := Run(Handle, s.endpoints[d := primary.after], DeleteOne(id, false), rest);
            DeleteContainer(s, id, returnContainer, true) ==
              Step(if sweep.result.Err? then Err(sweep.result.error) else Ok(primary.result.value),
                   s.(endpoints := sweep.endpoints),
                   [Event(d, DeleteOne(id, returnContainer))] + sweep.trace))
  {
    var d := s.defaultEndpoint;
    var primary := Delete(s.endpoints[d], id, returnContainer);
    HandleFaithful();
    FanOutIsRun(Handle, s.endpoints[d := primary.after], DeleteOne(id, false), d, 0);
  }

  /** What a reflected delete amounts to, with `primary` the call on the default
      endpoint `d` and `answer` its answer, and `reflected` the call made on the
      others: the default endpoint is called first, then every other endpoint in
      ascending order, stopping at the first failure.
      - A failing default call ends the delete: its error is the answer and nothing
        has changed.
      - Otherwise the default endpoint keeps the call's effect, every other endpoint
        reached before a failing one keeps it too, and the endpoints not yet reached
        are as they were (nothing is rolled back).
      - On success every endpoint was called, all of them carry the effect, and the
        answer is the default endpoint's. */
  ghost predicate DeleteOutcome<T>(before: seq<Backend>, d: nat, primary: Call, reflected: Call,
                                   answer: Result<T>, result: Result<T>, after: seq<Backend>, trace: seq<Event>)
  {
    && DeleteCalls(|before|, d, primary, reflected, trace)
    && |after| == |before|
    && DeleteResults(before, d, primary, reflected, answer, result, after, trace)
    && DeleteAnswers(Handle, before, d, primary, reflected, answer, result, trace)
  }

  /** How many reflected calls of a delete went through: all of them on success, all
      but the failing last one otherwise. */
  function ReflectedDone<T>(result: Result<T>, trace: seq<Event>): nat
  {
    if result.Ok? then (if |trace| > 0 then |trace| - 1 else 0)
    else if |trace| >= 2 then |trace| - 2 else 0
  }

  /** Which reflected call a delete's failure comes from: every reflected call that went
      through succeeds on the endpoint as it was before the delete, and when the default
      call succeeded but the delete failed, the last reflected call fails there with
      the delete's error. */
  ghost predicate DeleteAnswers<T>(serve: Serve, before: seq<Backend>, d: nat, primary: Call, reflected: Call,
                                   answer: Result<T>, result: Result<T>, trace: seq<Event>)
    requires DeleteCalls(|before|, d, primary, reflected, trace)
  {
    var rest := Ascending(0, |before|, d);
    && (forall m :: 0 <= m < ReflectedDone(result, trace) ==> serve(before[rest[m]], reflected).result.Ok?)
    && (answer.Ok? && result.Err? && |trace| >= 2 ==>
          var last := serve(before[rest[|trace| - 2]], reflected).result;
          last.Err? && result.error == last.error)
  }

  /** The calls of a reflected delete: the default endpoint first, then the others in
      ascending order. */
  ghost predicate DeleteCalls(n: nat, d: nat, primary: Call, reflected: Call, trace: seq<Event>)
  {
    var rest := Ascending(0, n, d);
    && d < n
    && |rest| == n - 1
    && InRange(rest, n)
    && 1 <= |trace| <= n
    && trace[0] == Event(d, primary)
    && forall k :: 1 <= k < |trace| ==> trace[k] == Event(rest[k - 1], reflected)
  }

  /** What a reflected delete answers and leaves behind, given its calls. */
  ghost predicate DeleteResults<T>(before: seq<Backend>, d: nat, primary: Call, reflected: Call,
                                   answer: Result<T>, result: Result<T>, after: seq<Backend>, trace: seq<Event>)
    requires DeleteCalls(|before|, d, primary, reflected, trace) && |after| == |before|
  {
    var n := |before|;
    var rest := Ascending(0, n, d);
    var swept := ReflectedDone(result, trace);
    && (answer.Err? ==> |trace| == 1 && result == answer && after == before)
    && (answer.Ok? && result.Err? ==> |trace| >= 2)
    && (answer.Ok? ==> Effect(after[d], primary))
    && (forall m :: 0 <= m < swept ==> Effect(after[rest[m]], reflected))
    && (forall j :: 0 <= j < n && j != d && j !in rest[..swept] ==> after[j] == before[j])
    && (result.Ok? ==> result == answer && |trace| == n)
    && (result.Ok? ==> forall j :: 0 <= j < n ==> Effect(after[j], reflected))
  }

  /** `delete_container` with reflection has that outcome; on success the answer is
      the default endpoint's container when asked for, else nothing. */
  lemma DeleteFollowsPlan(s: Storage, id: ContainerId, returnContainer: bool)
    requires Resolvable(s)
    ensures var r, d := DeleteContainer(s, id, returnContainer, true), s.defaultEndpoint;
      && DeleteOutcome(s.endpoints, d, DeleteOne(id, returnContainer), DeleteOne(id, false),
                       Delete(s.endpoints[d], id, returnContainer).result, r.result, r.storage.endpoints, r.trace)
      && (r.result.Ok? ==> r.result.value == if returnContainer then Lookup(s.endpoints[d].entries, id) else None)
  {
    var n, d := |s.endpoints|, s.defaultEndpoint;
    var primary := Delete(s.endpoints[d], id, returnContainer);
    var eps := s.endpoints[d := primary.after];
    var rest := Ascending(0, n, d);
    var call := DeleteOne(id, false);
    AscendingLength(n, d);
    HandleFaithful();
    DeleteRunsPlan(s, id, returnContainer);
    if primary.result.Ok? {
      DefaultThenSweep(s.endpoints, d, DeleteOne(id, returnContainer), call, primary.result.value, eps);
    } else {
      assert eps == s.endpoints;
    }
  }

  /** The reflected part of `delete_containers` is the plan executor run over every
      endpoint but the default, in ascending order, with the return flag cleared. */
  lemma DeleteManyRunsPlan(s: Storage, ids: seq<ContainerId>)
    requires Resolvable(s)
    ensures Faithful(Handle)
    ensures var d := s.defaultEndpoint;
      var primary := DeleteBatch(s.endpoints[d], ids, true);
      var rest := Ascending(0, |s.endpoints|, d);
      && InRange(rest, |s.endpoints|)
      && (primary.result.Ok? ==>
            var sweep := Run(Handle, s.endpoints[d := primary.after], DeleteMany(ids, false), rest);
            DeleteContainers(s, ids, true) ==
              Step(if sweep.result.Err? then Err(sweep.result.error) else Ok(primary.result.value),
                   s.(endpoints := sweep.endpoints),
                   [Event(d, DeleteMany(ids, true))] + sweep.trace))
  {
    var d := s.defaultEndpoint;
    var primary := DeleteBatch(s.endpoints[d], ids, true);
    HandleFaithful();
    FanOutIsRun(Handle, s.endpoints[d := primary.after], DeleteMany(ids, false), d, 0);
  }

  /** `delete_containers` asked for the deleted containers has the reflected delete's
      outcome, with the default endpoint's batch answer as the answer. */
  lemma DeleteManyFollowsPlan(s: Storage, ids: seq<ContainerId>)
    requires Resolvable(s)
    ensures var r, d := DeleteContainers(s, ids, true), s.defaultEndpoint;
      DeleteOutcome(s.endpoints, d, DeleteMany(ids, true), DeleteMany(ids, false),
                    DeleteBatch(s.endpoints[d], ids, true).result, r.result, r.storage.endpoints, r.trace)
  {
    var n, d := |s.endpoints|, s.defaultEndpoint;
    var primary := DeleteBatch(s.endpoints[d], ids, true);
    var eps := s.endpoints[d := primary.after];
    var rest := Ascending(0, n, d);
    var call := DeleteMany(ids, false);
    AscendingLength(n, d);
    HandleFaithful();
    DeleteManyRunsPlan(s, ids);
    if primary.result.Ok? {
      DefaultThenSweep(s.endpoints, d, DeleteMany(ids, true), call, primary.result.value, eps);
    } else {
      assert eps == s.endpoints;
    }
  }

  /** A successful default-endpoint call followed by the sweep over the others has the
      outcome above. */
  lemma DefaultThenSweep<T>(before: seq<Backend>, d: nat, primary: Call, reflected: Call, value: T, mid: seq<Backend>)
    requires d < |before| == |mid|
    requires forall j :: 0 <= j < |before| && j != d ==> mid[j] == before[j]
    requires Effect(mid[d], primary) && Effect(mid[d], reflected)
    requires Faithful(Handle) && InRange(Ascending(0, |before|, d), |mid|)
    ensures var sweep := Run(Handle, mid, reflected, Ascending(0, |before|, d));
      DeleteOutcome(before, d, primary, reflected, Ok(value),
                    if sweep.result.Err? then Err(sweep.result.error) else Ok(value),
                    sweep.endpoints, [Event(d, primary)] + sweep.trace)
  {
    var rest := Ascending(0, |before|, d);
    var sweep := Run(Handle, mid, reflected, rest);
    RunSwept(Handle, mid, reflected, rest);
    AscendingIncreases(0, |before|, d);
    RunFirstFailure(Handle, mid, reflected, rest);
    SweepOutcome(before, d, primary, reflected, value, mid, sweep);
  }

  /** Gluing a successful default-endpoint call to the sweep over the others gives the
      outcome above. */
  lemma SweepOutcome<T>(before: seq<Backend>, d: nat, primary: Call, reflected: Call,
                        value: T, mid: seq<Backend>, sweep: Sweep)
    requires d < |before| == |mid|
    requires forall j :: 0 <= j < |before| && j != d ==> mid[j] == before[j]
    requires Effect(mid[d], primary) && Effect(mid[d], reflected)
    requires Swept(mid, reflected, Ascending(0, |before|, d), sweep.result, sweep.endpoints, sweep.trace)
    requires AnsweredOnStart(Handle, mid, reflected, Ascending(0, |before|, d), sweep)
    ensures DeleteOutcome(before, d, primary, reflected, Ok(value),
                          if sweep.result.Err? then Err(sweep.result.error) else Ok(value),
                          sweep.endpoints, [Event(d, primary)] + sweep.trace)
  {
    SweepCalls(|before|, d, primary, reflected, mid, sweep);
    SweepResults(before, d, primary, reflected, value, mid, sweep);
    SweepAnswers(Handle, before, d, primary, reflected, value, mid, sweep);
  }

  lemma SweepAnswers<T>(serve: Serve, before: seq<Backend>, d: nat, primary: Call, reflected: Call,
                        value: T, mid: seq<Backend>, sweep: Sweep)
    requires d < |before| == |mid|
    requires forall j :: 0 <= j < |before| && j != d ==> mid[j] == before[j]
    requires InRange(Ascending(0, |before|, d), |mid|)
    requires AnsweredOnStart(serve, mid, reflected, Ascending(0, |before|, d), sweep)
    requires DeleteCalls(|before|, d, primary, reflected, [Event(d, primary)] + sweep.trace)
    ensures DeleteAnswers(serve, before, d, primary, reflected, Ok(value),
                          if sweep.result.Err? then Err(sweep.result.error) else Ok(value),
                          [Event(d, primary)] + sweep.trace)
  {
    var rest := Ascending(0, |before|, d);
    var trace := [Event(d, primary)] + sweep.trace;
    var result: Result<T> := if sweep.result.Err? then Err(sweep.result.error) else Ok(value);
    assert d !in rest;
    assert ReflectedDone(result, trace) == Delivered(sweep);
    forall m | 0 <= m < Delivered(sweep) ensures serve(before[rest[m]], reflected).result.Ok? {
      assert mid[rest[m]] == before[rest[m]];
    }
    if sweep.result.Err? {
      assert mid[rest[|sweep.trace| - 1]] == before[rest[|trace| - 2]];
    }
  }

  lemma SweepCalls(n: nat, d: nat, primary: Call, reflected: Call, mid: seq<Backend>, sweep: Sweep)
    requires d < n == |mid|
    requires Swept(mid, reflected, Ascending(0, n, d), sweep.result, sweep.endpoints, sweep.trace)
    ensures DeleteCalls(n, d, primary, reflected, [Event(d, primary)] + sweep.trace)
  {
    AscendingLength(n, d);
  }

  lemma SweepResults<T>(before: seq<Backend>, d: nat, primary: Call, reflected: Call,
                        value: T, mid: seq<Backend>, sweep: Sweep)
    requires d < |before| == |mid|
    requires forall j :: 0 <= j < |before| && j != d ==> mid[j] == before[j]
    requires Effect(mid[d], primary) && Effect(mid[d], reflected)
    requires Swept(mid, reflected, Ascending(0, |before|, d), sweep.result, sweep.endpoints, sweep.trace)
    requires DeleteCalls(|before|, d, primary, reflected, [Event(d, primary)] + sweep.trace)
    ensures DeleteResults(before, d, primary, reflected, Ok(value),
                          if sweep.result.Err? then Err(sweep.result.error) else Ok(value),
                          sweep.endpoints, [Event(d, primary)] + sweep.trace)
  {
    var rest := Ascending(0, |before|, d);
    assert d !in rest;
    assert forall j :: j in rest[..Delivered(sweep)] ==> j in rest;
    if sweep.result.Ok? {
      OthersThenDefault(mid, reflected, d, sweep.endpoints);
    }
  }

  /** An effect left on every endpoint but the default, by a sweep that leaves the
      default as it was, is on every endpoint once the default has it too. */
  lemma OthersThenDefault(eps: seq<Backend>, call: Call, d: nat, after: seq<Backend>)
    requires d < |eps| == |after| && Effect(eps[d], call) && after[d] == eps[d]
    requires var rest := Ascending(0, |eps|, d);
      InRange(rest, |eps|) && forall m :: 0 <= m < |rest| ==> Effect(after[rest[m]], call)
    ensures forall j :: 0 <= j < |eps| ==> Effect(after[j], call)
  {
    var rest := Ascending(0, |eps|, d);
    forall j | 0 <= j < |eps| ensures Effect(after[j], call) {
      if j != d {
        assert j in rest;
        var m :| 0 <= m < |rest| && rest[m] == j;
      }
    }
  }

  /** Leaving one index out of `0 .. n-1` leaves `n - 1` indices. */
  lemma AscendingLength(n: nat, skip: nat)
    requires skip < n
    ensures |Ascending(0, n, skip)| == n - 1
  {
    AscendingCount(0, n, skip);
  }

  lemma {:induction false} AscendingCount(from: nat, n: nat, skip: nat)
    requires from <= n
    ensures |Ascending(from, n, skip)| == if from <= skip < n then n - from - 1 else n - from
    decreases n - from
  {
    if from < n {
      AscendingCount(from + 1, n, skip);
    }
  }

  /** The return flag of `delete_container` only decides whether the deleted container
      is handed back, never what is deleted or where (for a default backend whose
      failure oracle does not single out the flag). */
  lemma DeleteReturnFlagOnlyShapesAnswer(s: Storage, id: ContainerId, reflectOnAll: bool)
    requires Resolvable(s)
    requires var b := s.endpoints[s.defaultEndpoint];
      (DeleteOne(id, true) in b.faults <==> DeleteOne(id, false) in b.faults) &&
      (DeleteOne(id, true) in b.faults ==> b.faults[DeleteOne(id, true)] == b.faults[DeleteOne(id, false)])
    ensures var yes, no := DeleteContainer(s, id, true, reflectOnAll), DeleteContainer(s, id, false, reflectOnAll);
      && yes.storage == no.storage
      && yes.result.Ok? == no.result.Ok?
      && (yes.result.Err? ==> yes.result.error == no.result.error)
      && (no.result.Ok? ==> no.result.value == None)
      && (yes.result.Ok? ==> yes.result.value == Lookup(s.endpoints[s.defaultEndpoint].entries, id))
  {
    var d := s.defaultEndpoint;
    var yes, no := Delete(s.endpoints[d], id, true), Delete(s.endpoints[d], id, false);
    assert yes.after == no.after;
    assert yes.result.Ok? == no.result.Ok?;
  }

  /** `delete_containers` fans out only when the deleted containers are asked for:
      without the return flag the ids leave the default endpoint alone; with it, a
      successful call removes them from every endpoint. */
  lemma BatchDeleteFanOutFollowsReturnFlag(s: Storage, ids: seq<ContainerId>)
    requires Resolvable(s)
    ensures var r := DeleteContainers(s, ids, false);
      && r.trace == [Event(s.defaultEndpoint, DeleteMany(ids, false))]
      && forall j :: 0 <= j < |s.endpoints| && j != s.defaultEndpoint ==> r.storage.endpoints[j] == s.endpoints[j]
    ensures var r := DeleteContainers(s, ids, true);
      r.result.Ok? ==>
        && |r.trace| == |s.endpoints|
        && forall j, id :: 0 <= j < |s.endpoints| && id in ids ==> Lookup(r.storage.endpoints[j].entries, id) == None
  {
    DeleteManyFollowsPlan(s, ids);
    var r := DeleteContainers(s, ids, true);
    if r.result.Ok? {
      forall j, id | 0 <= j < |s.endpoints| && id in ids
        ensures Lookup(r.storage.endpoints[j].entries, id) == None
      {
        assert Effect(r.storage.endpoints[j], DeleteMany(ids, false));
      }
    }
  }

  // ---------------------------------------------------------------------------
  // Two-backend scenarios

  /** Two healthy backends, the first the default: a reflected write makes the object
      readable from both; a reflected delete that asks for the container returns it
      from the first and leaves the id absent from both. */
  lemma TwoBackendRoundTrip<T>(a: Backend, b: Backend, codec: Codec<T>, obj: T)
    requires a.faults == map[] && b.faults == map[]
    requires RoundTrips(codec, obj)
    ensures var c := codec.toContainer(obj).value;
      var w := WriteContainer(Storage([a, b], 0), codec, obj, None, true);
      var del := DeleteContainer(w.storage, c.id, true, true);
      && w.result.Ok?
      && Read(w.storage.endpoints[0], c.id) == Ok(c)
      && Read(w.storage.endpoints[1], c.id) == Ok(c)
      && codec.fromContainer(Read(w.storage.endpoints[1], c.id).value) == Ok(obj)
      && del.result == Ok(Some(c))
      && Exists(del.storage.endpoints[0], c.id) == Ok(false)
      && Exists(del.storage.endpoints[1], c.id) == Ok(false)
  {
    var c := codec.toContainer(obj).value;
    var s := Storage([a, b], 0);
    WriteReflectReachesAll(s, codec, obj, None);
    var w := WriteContainer(s, codec, obj, None, true);
    assert w.result.Ok?;
    var s' := w.storage;
    assert s'.endpoints[0].faults == map[] && s'.endpoints[1].faults == map[];
    assert Lookup(s'.endpoints[0].entries, c.id) == Some(c);
    assert Lookup(s'.endpoints[1].entries, c.id) == Some(c);
    SecondDeleteSucceeds(s', c.id);
    DeleteFollowsPlan(s', c.id, true);
    var del := DeleteContainer(s', c.id, true, true);
    assert del.storage.endpoints[0].faults == map[] && del.storage.endpoints[1].faults == map[];
  }

  /** With two healthy backends that both hold `id`, a reflected delete succeeds. */
  lemma SecondDeleteSucceeds(s: Storage, id: ContainerId)
    requires |s.endpoints| == 2 && s.defaultEndpoint == 0
    requires s.endpoints[0].faults == map[] && s.endpoints[1].faults == map[]
    requires Lookup(s.endpoints[0].entries, id).Some? && Lookup(s.endpoints[1].entries, id).Some?
    ensures DeleteContainer(s, id, true, true).result.Ok?
  {
    var primary := Delete(s.endpoints[0], id, true);
    var eps := s.endpoints[0 := primary.after];
    assert eps[1] == s.endpoints[1];
    HandleFaithful();
    var call := DeleteOne(id, false);
    assert FanOut(Handle, eps, call, 0, 0) == FanOut(Handle, eps, call, 0, 1);
    assert Handle(eps[1], call).result.Ok?;
    assert FanOut(Handle, eps, call, 0, 1).result.Ok?;
  }

  /** Two backends, the second faulting on the write: the reflected write answers with
      the second backend's fault, and the first still holds the container. */
  lemma TwoBackendReplicaFailure<T>(a: Backend, b: Backend, codec: Codec<T>, obj: T, code: nat)
    requires codec.toContainer(obj).Ok?
    requires a.faults == map[]
    requires b.faults == map[WriteOne(codec.toContainer(obj).value) := code]
    ensures var c := codec.toContainer(obj).value;
      var w := WriteContainer(Storage([a, b], 0), codec, obj, None, true);
      && w.result == Err(Failed(code))
      && Read(w.storage.endpoints[0], c.id) == Ok(c)
      && w.storage.endpoints[1] == b
  {
    var c := codec.toContainer(obj).value;
    var s := Storage([a, b], 0);
    var w := WriteContainer(s, codec, obj, None, true);
    var plan := Plan(2, 0, true, 0);
    assert Ascending(0, 2, 0) == [1];
    assert plan == [0, 1];
    ReflectWriteFollowsPlan(s, true, 0, WriteOne(c));
    assert w == Reflect(s, true, 0, WriteOne(c));
    assert s.endpoints[plan[1]] == b && Faulty(b, WriteOne(c));
    assert w.result.Err?;
    WriteShortCircuit(s, codec, obj, None, true);
    assert !Faulty(a, WriteOne(c));
    assert |w.trace| == 2;
    assert Effect(w.storage.endpoints[plan[0]], WriteOne(c));
    assert plan[..1] == [0];
    assert w.storage.endpoints[0].faults == map[];
  }
}
