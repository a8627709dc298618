/** The per-cycle driver: issue, then broadcast and capture, then dispatch
    with the stations issued or capturing this cycle excluded; run for a
    fixed number of cycles. */
module Cycle {
  import opened Tomasulo
  import opened Stages
  import StageProperties

  /** The stations that may not dispatch this cycle: the one just issued and
      those that captured a value. */
  function Excluded(issued: Option<StationId>, captured: seq<StationId>): (r: seq<int>)
    ensures forall x: int :: x in r <==> (issued.Some? && x == issued.value) || x in captured
  {
    (if issued.Some? then [issued.value as int] else []) + captured
  }

  datatype StepResult =
    | Stepped(state: State, issued: Option<StationId>, captured: seq<StationId>)
    | Aborted(state: State, fault: Fault)

  /** One cycle. A division by zero aborts it after issue, before anything of
      the broadcast has been written. */
  function Step(st: State, cycle: nat): (r: StepResult)
    requires Inv(st)
    ensures Inv(r.state)
  {
    var iss := Issue(st);
    var bc := BroadcastAndCapture(iss.state, cycle);
    if bc.Err? then Aborted(iss.state, bc.fault)
    else
      var after := bc.value.state;
      var stations := Dispatch(after.stations, cycle, Excluded(iss.issued, bc.value.captured));
      assert RatNamesBusy(stations, after.rat);
      Stepped(after.(stations := stations), iss.issued, bc.value.captured)
  }

  datatype RunOutcome =
    | Finished(state: State)
    | Faulted(cycle: nat, fault: Fault, state: State)

  /** The machine after cycles 0, 1, ..., n - 1, or the first fault. */
  function Simulate(st0: State, n: nat): (o: RunOutcome)
    requires Inv(st0)
    ensures Inv(o.state)
    ensures o.Faulted? ==> o.cycle < n
    decreases n
  {
    if n == 0 then Finished(st0)
    else
      var prev := Simulate(st0, n - 1);
      if prev.Faulted? then prev
      else
        var r := Step(prev.state, n - 1);
        if r.Aborted? then Faulted(n - 1, r.fault, r.state) else Finished(r.state)
  }

  /** Zero cycles leave the loaded machine as it is. */
  lemma SimulateZero(st0: State)
    requires Inv(st0)
    ensures Simulate(st0, 0) == Finished(st0)
  {
  }

  /** A fault ends the run: later cycles report the same fault. */
  lemma FaultIsFinal(st0: State, n: nat, m: nat)
    requires Inv(st0) && n <= m && Simulate(st0, n).Faulted?
    ensures Simulate(st0, m) == Simulate(st0, n)
  {
    var k := n;
    while k < m
      invariant n <= k <= m && Simulate(st0, k) == Simulate(st0, n)
    {
      k := k + 1;
    }
  }

  /** Dispatch markers survive issue unchanged, and the issued station is
      undispatched. */
  lemma IssueMarkers(st: State)
    requires Inv(st)
    ensures var iss := Issue(st);
      (forall i :: 0 <= i < NUM_STNS && iss.issued != Some(i) ==>
         iss.state.stations[i].dispatched == st.stations[i].dispatched)
      && (iss.issued.Some? ==>
            iss.state.stations[iss.issued.value].busy && iss.state.stations[iss.issued.value].dispatched.None?)
      && |iss.state.queue| <= |st.queue|
      && iss.state.queue == st.queue[|st.queue| - |iss.state.queue|..]
  {
    var iss := Issue(st);
    if iss.issued.Some? {
      StageProperties.IssueEffect(st);
    } else {
      StageProperties.IssueStall(st);
    }
  }

  /** The station issued in a cycle ends that cycle busy and undispatched:
      it cannot complete (it has no marker) and dispatch skips it. */
  lemma StepIssued(st: State, cycle: nat)
    requires Inv(st)
    ensures var r := Step(st, cycle);
      r.Stepped? && r.issued.Some? ==>
        r.state.stations[r.issued.value].busy && r.state.stations[r.issued.value].dispatched.None?
  {
    var iss := Issue(st);
    IssueMarkers(st);
    var bc := BroadcastAndCapture(iss.state, cycle);
    StageProperties.BroadcastFrame(iss.state, cycle);
    if bc.Ok? && iss.issued.Some? {
      var s := iss.issued.value;
      assert !Eligible(iss.state.stations[s], cycle);
      StageProperties.DispatchSkipsExcluded(bc.value.state.stations, cycle, Excluded(iss.issued, bc.value.captured), s);
    }
  }

  /** The hazard rule of the driver: with every station dispatched in an
      earlier cycle, no station issued or capturing in cycle `cycle` is
      marked dispatched in that cycle. */
  lemma StepExcluded(st: State, cycle: nat)
    requires Inv(st) && DispatchedBefore(st.stations, cycle)
    ensures var r := Step(st, cycle);
      r.Stepped? ==>
        forall i :: 0 <= i < NUM_STNS && i in Excluded(r.issued, r.captured) ==>
          r.state.stations[i].dispatched != Some(cycle)
  {
    var iss := Issue(st);
    var bc := BroadcastAndCapture(iss.state, cycle);
    if bc.Ok? {
      var after := bc.value.state;
      assert DispatchedBefore(after.stations, cycle) by {
        IssueMarkers(st);
        StageProperties.BroadcastFrame(iss.state, cycle);
      }
      var na := Excluded(iss.issued, bc.value.captured);
      forall i | 0 <= i < NUM_STNS && i in na
        ensures Dispatch(after.stations, cycle, na)[i].dispatched != Some(cycle)
      {
        StageProperties.DispatchSkipsExcluded(after.stations, cycle, na, i);
      }
    }
  }

  /** After a cycle, every dispatch marker is at most that cycle. */
  lemma StepDispatchedBefore(st: State, cycle: nat)
    requires Inv(st) && DispatchedBefore(st.stations, cycle)
    ensures var r := Step(st, cycle);
      r.Stepped? ==> DispatchedBefore(r.state.stations, cycle + 1)
  {
    var iss := Issue(st);
    var bc := BroadcastAndCapture(iss.state, cycle);
    if bc.Ok? {
      var after := bc.value.state;
      assert DispatchedBefore(after.stations, cycle) by {
        IssueMarkers(st);
        StageProperties.BroadcastFrame(iss.state, cycle);
      }
      StageProperties.DispatchMarksCurrentCycle(after.stations, cycle, Excluded(iss.issued, bc.value.captured));
    }
  }

  /** At most one station goes from busy to free in a cycle. */
  lemma StepFreesAtMostOne(st: State, cycle: nat, i: int, j: int)
    requires Inv(st) && 0 <= i < NUM_STNS && 0 <= j < NUM_STNS
    requires st.stations[i].busy && !Step(st, cycle).state.stations[i].busy
    requires st.stations[j].busy && !Step(st, cycle).state.stations[j].busy
    ensures i == j
  {
    var iss := Issue(st);
    if iss.issued.Some? {
      StageProperties.IssueEffect(st);
    } else {
      StageProperties.IssueStall(st);
    }
    var bc := BroadcastAndCapture(iss.state, cycle);
    if bc.Ok? {
      StageProperties.SingleBroadcaster(iss.state, cycle, i, j);
    }
  }

  /** Every reachable state has all dispatch markers in past cycles. */
  lemma SimulateDispatchedBefore(st0: State, n: nat)
    requires Inv(st0) && DispatchedBefore(st0.stations, 0)
    ensures Simulate(st0, n).Finished? ==> DispatchedBefore(Simulate(st0, n).state.stations, n)
  {
    var k := 0;
    while k < n
      invariant k <= n
      invariant Simulate(st0, k).Finished? ==> DispatchedBefore(Simulate(st0, k).state.stations, k)
    {
      SimulateStepDispatchedBefore(st0, k);
      k := k + 1;
    }
  }

  /** One more cycle of a run keeps every dispatch marker in the past. */
  lemma SimulateStepDispatchedBefore(st0: State, k: nat)
    requires Inv(st0)
    requires Simulate(st0, k).Finished? ==> DispatchedBefore(Simulate(st0, k).state.stations, k)
    ensures Simulate(st0, k + 1).Finished? ==> DispatchedBefore(Simulate(st0, k + 1).state.stations, k + 1)
  {
    var prev := Simulate(st0, k);
    if prev.Finished? {
      StepDispatchedBefore(prev.state, k);
    }
  }

  /** The driver's hazard rule holds in every cycle of a run from the loaded
      machine: a station issued in cycle n, or capturing in cycle n, is not
      dispatched in cycle n. */
  lemma NoDispatchOnIssueOrCapture(program: seq<Instruction>, registers: seq<int>, n: nat)
    requires |registers| == NUM_REGISTERS
    ensures var prev := Simulate(Initial(program, registers), n);
      prev.Finished? ==>
        var r := Step(prev.state, n);
        r.Stepped? ==> forall i :: 0 <= i < NUM_STNS && i in Excluded(r.issued, r.captured) ==>
          r.state.stations[i].dispatched != Some(n)
  {
    var st0 := Initial(program, registers);
    SimulateDispatchedBefore(st0, n);
    var prev := Simulate(st0, n);
    if prev.Finished? {
      StepExcluded(prev.state, n);
    }
  }

  /** `a` is what is left of `b` after removing a prefix. */
  predicate IsSuffix(a: seq<Instruction>, b: seq<Instruction>)
  {
    |a| <= |b| && a == b[|b| - |a|..]
  }

  lemma SuffixTransitive(a: seq<Instruction>, b: seq<Instruction>, c: seq<Instruction>)
    requires IsSuffix(a, b) && IsSuffix(b, c)
    ensures IsSuffix(a, c)
  {
    assert c[|c| - |b|..][|b| - |a|..] == c[|c| - |a|..];
  }

  /** One cycle removes at most the head of the queue. */
  lemma StepQueue(st: State, cycle: nat)
    requires Inv(st)
    ensures IsSuffix(Step(st, cycle).state.queue, st.queue)
    ensures Step(st, cycle).state.queue == st.queue || Step(st, cycle).state.queue == st.queue[1..]
  {
    IssueMarkers(st);
    StageProperties.BroadcastFrame(Issue(st).state, cycle);
  }

  lemma SimulateQueue(st0: State, k: nat)
    requires Inv(st0)
    ensures IsSuffix(Simulate(st0, k + 1).state.queue, Simulate(st0, k).state.queue)
  {
    var prev := Simulate(st0, k);
    if prev.Finished? {
      StepQueue(prev.state, k);
    }
  }

  /** In-order issue: the queue is always a suffix of the loaded program,
      so instructions leave it only from the head, in program order. */
  lemma QueueIsSuffix(st0: State, n: nat)
    requires Inv(st0)
    ensures IsSuffix(Simulate(st0, n).state.queue, st0.queue)
  {
    var k := 0;
    while k < n
      invariant k <= n
      invariant IsSuffix(Simulate(st0, k).state.queue, st0.queue)
    {
      SimulateQueue(st0, k);
      SuffixTransitive(Simulate(st0, k + 1).state.queue, Simulate(st0, k).state.queue, st0.queue);
      k := k + 1;
    }
  }
}
