/** What each stage does, stated against the machine state before it. */
module StageProperties {
  import opened Tomasulo
  import opened Stages

  // ---------------------------------------------------------------- issue

  /** Issue does nothing exactly when the queue is empty or every station of
      the head's class is busy (strict in-order issue: nothing behind the
      head is considered). */
  lemma IssueStall(st: State)
    requires Inv(st)
    ensures Issue(st).issued.None? <==>
      (|st.queue| == 0 || FreeStation(st.stations, st.queue[0].opcode).None?)
    ensures Issue(st).issued.None? ==> Issue(st).state == st
  {
  }

  /** A successful issue: the lowest free station of the head's class becomes
      busy with its opcode; each operand holds the register value when the RAT
      entry is -1 and the RAT's tag otherwise, never both; the destination is
      renamed; the queue loses exactly its head. Nothing else changes. */
  lemma IssueEffect(st: State)
    requires Inv(st) && |st.queue| > 0 && FreeStation(st.stations, st.queue[0].opcode).Some?
    ensures
      var ins := st.queue[0];
      var s := FreeStation(st.stations, ins.opcode).value;
      var out := Issue(st);
      var stn := out.state.stations[s];
      out.issued == Some(s)
      && stn.busy && stn.opcode == Some(ins.opcode) && stn.dispatched.None?
      && stn.vj == (if st.rat[ins.src1] == NO_STATION then Some(st.rf[ins.src1]) else None)
      && stn.qj == (if st.rat[ins.src1] == NO_STATION then None else Some(st.rat[ins.src1] as StationId))
      && stn.vk == (if st.rat[ins.src2] == NO_STATION then Some(st.rf[ins.src2]) else None)
      && stn.qk == (if st.rat[ins.src2] == NO_STATION then None else Some(st.rat[ins.src2] as StationId))
      && (forall i :: 0 <= i < NUM_STNS && i != s ==> out.state.stations[i] == st.stations[i])
      && out.state.rat[ins.dst] == s
      && (forall j :: 0 <= j < NUM_REGISTERS && j != ins.dst ==> out.state.rat[j] == st.rat[j])
      && out.state.rf == st.rf
      && out.state.queue == st.queue[1..]
  {
    var s := FreeStation(st.stations, st.queue[0].opcode).value;
    assert StationOk(s, st.stations[s]);
  }

  // -------------------------------------------------------------- compute

  /** Add, subtract and multiply always succeed with the arithmetic result;
      division succeeds exactly when the divisor is non-zero, with the
      quotient truncated toward zero (the remainder takes the dividend's
      sign). The only failing computation is a division by zero. */
  lemma ComputeResultSpec(op: Opcode, v1: int, v2: int)
    ensures ComputeResult(op, v1, v2).None? <==> op == DIV && v2 == 0
    ensures op == ADD ==> ComputeResult(op, v1, v2) == Some(v1 + v2)
    ensures op == SUB ==> ComputeResult(op, v1, v2) == Some(v1 - v2)
    ensures op == MUL ==> ComputeResult(op, v1, v2) == Some(v1 * v2)
    ensures op == DIV && v2 != 0 ==>
      var q := ComputeResult(op, v1, v2).value;
      (v1 >= 0 ==> 0 <= v1 - q * v2 < Abs(v2)) && (v1 < 0 ==> -Abs(v2) < v1 - q * v2 <= 0)
  {
  }

  lemma {:induction false} NatMulAtLeast(x: nat, y: nat)
    requires x >= 1
    ensures x * y >= y
  {
    if x > 1 {
      NatMulAtLeast(x - 1, y);
      assert x * y == (x - 1) * y + y;
    }
  }

  lemma MulMagnitude(x: int, b: int)
    requires x != 0
    ensures Abs(x * b) >= Abs(b)
  {
    var xa: nat, ba: nat := Abs(x), Abs(b);
    NatMulAtLeast(xa, ba);
    if x < 0 && b < 0 {
      assert x * b == xa * ba;
    } else if x < 0 {
      assert x * b == -(xa * ba);
    } else if b < 0 {
      assert x * b == -(xa * ba);
    } else {
      assert x * b == xa * ba;
    }
  }

  lemma MulSubDistrib(x: int, y: int, b: int)
    ensures (x - y) * b == x * b - y * b
  {
  }

  /** Two quotients with remainders in the same half-open range coincide. */
  lemma RemainderUnique(a: int, b: int, q: int, q0: int)
    requires b != 0
    requires a >= 0 ==> 0 <= a - q * b < Abs(b) && 0 <= a - q0 * b < Abs(b)
    requires a < 0 ==> -Abs(b) < a - q * b <= 0 && -Abs(b) < a - q0 * b <= 0
    ensures q == q0
  {
    if q != q0 {
      MulMagnitude(q0 - q, b);
      MulSubDistrib(q0, q, b);
    }
  }

  /** The remainder bounds of TruncDiv determine the quotient. */
  lemma TruncDivUnique(a: int, b: int, q: int)
    requires b != 0
    requires a >= 0 ==> 0 <= a - q * b < Abs(b)
    requires a < 0 ==> -Abs(b) < a - q * b <= 0
    ensures q == TruncDiv(a, b)
  {
    RemainderUnique(a, b, q, TruncDiv(a, b));
  }

  /** Truncation toward zero, unlike floor division, commutes with negating
      the dividend. */
  lemma TruncDivNegation(a: int, b: int)
    requires b != 0
    ensures TruncDiv(-a, b) == -TruncDiv(a, b)
  {
    if a == 0 {
      ZeroDividend(b);
    } else if a > 0 && b > 0 {
      assert TruncDiv(-a, b) == -(a / b);
    } else if a > 0 {
      assert TruncDiv(-a, b) == a / (-b);
    } else if b > 0 {
      assert TruncDiv(a, b) == -((-a) / b);
    } else {
      assert TruncDiv(a, b) == (-a) / (-b);
    }
  }

  /** ... and with negating the divisor. */
  lemma TruncDivNegateDivisor(a: int, b: int)
    requires b != 0
    ensures TruncDiv(a, -b) == -TruncDiv(a, b)
  {
    if a == 0 {
      ZeroDividend(b);
      ZeroDividend(-b);
    } else if a > 0 && b > 0 {
      assert TruncDiv(a, -b) == -(a / b);
    } else if a > 0 {
      assert TruncDiv(a, b) == -(a / (-b));
    } else if b > 0 {
      assert TruncDiv(a, -b) == (-a) / b;
    } else {
      assert TruncDiv(a, b) == (-a) / (-b);
    }
  }

  lemma ZeroDividend(b: int)
    requires b != 0
    ensures TruncDiv(0, b) == 0
  {
    TruncDivUnique(0, b, 0);
  }

  lemma TruncDivExamples()
    ensures TruncDiv(7, 2) == 3 && TruncDiv(-7, 2) == -3
    ensures TruncDiv(7, -2) == -3 && TruncDiv(-7, -2) == 3
  {
  }

  // ---------------------------------------------------- broadcast/capture

  /** Capture changes only busy stations, and in them only the values whose
      tag matches, even when a value is already present; tags stay. The
      captured list is exactly the matching busy stations, increasing. */
  lemma CaptureEffect(stations: seq<Station>, s: StationId, result: int)
    requires |stations| == NUM_STNS
    ensures |CaptureAll(stations, s, result)| == NUM_STNS
    ensures forall i :: 0 <= i < NUM_STNS ==>
      var b := stations[i];
      var a := CaptureAll(stations, s, result)[i];
      a.busy == b.busy && a.opcode == b.opcode && a.dispatched == b.dispatched
      && a.qj == b.qj && a.qk == b.qk
      && a.vj == (if b.busy && b.qj == Some(s) then Some(result) else b.vj)
      && a.vk == (if b.busy && b.qk == Some(s) then Some(result) else b.vk)
    ensures forall x: int :: x in CapturedUpTo(stations, s, NUM_STNS) <==>
      0 <= x < NUM_STNS && stations[x].busy && (stations[x].qj == Some(s) || stations[x].qk == Some(s))
    ensures var c := CapturedUpTo(stations, s, NUM_STNS);
      forall a, b :: 0 <= a < b < |c| ==> c[a] < c[b]
  {
    CapturedUpToMembers(stations, s, NUM_STNS);
    CapturedUpToSorted(stations, s, NUM_STNS);
  }

  /** Completion of `s`: a zero divisor is the only fault; otherwise `s` is
      reset, every other station sees the broadcast, the register renamed to
      `s` (if any) takes the result and is resolved, and every other register
      and RAT entry is kept. */
  lemma CompleteEffect(st: State, s: StationId)
    requires Inv(st) && st.stations[s].dispatched.Some?
    ensures
      var stn := st.stations[s];
      var v := ComputeResult(stn.opcode.value, stn.vj.value, stn.vk.value);
      var r := Complete(st, s);
      (r.Err? <==> v.None?)
      && (r.Err? ==> r.fault == DivideByZero(s, stn.vj.value))
      && (r.Ok? ==>
            var after := r.value.state;
            after.stations[s] == FREE
            && (forall i :: 0 <= i < NUM_STNS && i != s ==> after.stations[i] == CaptureAt(st.stations[i], s, v.value))
            && (forall j :: 0 <= j < NUM_REGISTERS && st.rat[j] == s ==>
                  after.rat[j] == NO_STATION && after.rf[j] == v.value)
            && (forall j :: 0 <= j < NUM_REGISTERS && st.rat[j] != s ==>
                  after.rat[j] == st.rat[j] && after.rf[j] == st.rf[j])
            && after.queue == st.queue
            && r.value.captured == CapturedUpTo(st.stations, s, NUM_STNS))
  {
    var stn := st.stations[s];
    var v := ComputeResult(stn.opcode.value, stn.vj.value, stn.vk.value);
    if v.Some? {
      WriteBackEffect(st.rat, st.rf, s, v.value);
    }
  }

  /** The completion bus: when no station is eligible nothing happens. When
      one completes it is eligible (its latency has elapsed), no Mul/Div
      station below it is eligible, and an Add/Sub station completes only if
      no Mul/Div station is eligible and none below it is. No other station
      is freed and none becomes busy. */
  lemma CompletionArbitration(st: State, cycle: nat)
    requires Inv(st)
    ensures (forall k :: 0 <= k < NUM_STNS ==> !Eligible(st.stations[k], cycle)) ==>
      BroadcastAndCapture(st, cycle) == Ok(Completion(st, []))
    ensures var r := BroadcastAndCapture(st, cycle);
      r.Ok? ==>
      forall i :: 0 <= i < NUM_STNS ==>
        (st.stations[i].busy != r.value.state.stations[i].busy ==>
           st.stations[i].busy
           && Eligible(st.stations[i], cycle)
           && (forall k :: NUM_ADD_STNS <= k < i ==> !Eligible(st.stations[k], cycle))
           && (i < NUM_ADD_STNS ==>
                 forall k :: (0 <= k < i || NUM_ADD_STNS <= k < NUM_STNS) ==> !Eligible(st.stations[k], cycle)))
  {
    var w := Winner(st.stations, cycle);
    if w.Some? {
      var s := w.value;
      CompleteEffect(st, s);
    }
  }

  /** What the broadcast keeps: the queue, and every dispatch marker that
      survives it. A busy station that is not eligible stays busy with its
      marker. */
  lemma BroadcastFrame(st: State, cycle: nat)
    requires Inv(st)
    ensures var r := BroadcastAndCapture(st, cycle);
      r.Ok? ==>
        r.value.state.queue == st.queue
        && forall i :: 0 <= i < NUM_STNS ==>
          (r.value.state.stations[i].dispatched.Some? ==>
             r.value.state.stations[i].dispatched == st.stations[i].dispatched)
          && (st.stations[i].busy && !Eligible(st.stations[i], cycle) ==>
             r.value.state.stations[i].busy && r.value.state.stations[i].dispatched == st.stations[i].dispatched)
  {
    var w := Winner(st.stations, cycle);
    if w.Some? {
      var s := w.value;
      CompleteEffect(st, s);
    }
  }

  /** At most one station completes per cycle. */
  lemma SingleBroadcaster(st: State, cycle: nat, i: int, j: int)
    requires Inv(st) && BroadcastAndCapture(st, cycle).Ok?
    requires 0 <= i < NUM_STNS && 0 <= j < NUM_STNS
    requires st.stations[i].busy && !BroadcastAndCapture(st, cycle).value.state.stations[i].busy
    requires st.stations[j].busy && !BroadcastAndCapture(st, cycle).value.state.stations[j].busy
    ensures i == j
  {
    var w := Winner(st.stations, cycle);
    if w.Some? {
      var s := w.value;
      CompleteEffect(st, s);
    }
  }

  // ------------------------------------------------------------- dispatch

  lemma DispatchClassEffect(stations: seq<Station>, cycle: nat, notAllowed: seq<int>, lo: nat, hi: nat)
    ensures
      var r := DispatchClass(stations, cycle, notAllowed, lo, hi);
      var k := FirstReady(stations, notAllowed, lo, hi);
      |r| == |stations|
      && (forall i :: 0 <= i < |stations| && k != Some(i) ==> r[i] == stations[i])
      && (k.Some? ==> r[k.value] == stations[k.value].(dispatched := Some(cycle)))
  {
  }

  /** The scan of one class only looks at that class's stations. */
  lemma FirstReadyFrame(a: seq<Station>, b: seq<Station>, notAllowed: seq<int>, lo: nat, hi: nat)
    requires |a| == |b|
    requires forall i :: lo <= i < hi && i < |a| ==> a[i] == b[i]
    ensures FirstReady(a, notAllowed, lo, hi) == FirstReady(b, notAllowed, lo, hi)
  {
    var ra, rb := FirstReady(a, notAllowed, lo, hi), FirstReady(b, notAllowed, lo, hi);
    if ra.Some? { assert Ready(b, notAllowed, ra.value); }
    if rb.Some? { assert Ready(a, notAllowed, rb.value); }
  }

  /** Per class, the lowest-index Ready station (busy, not excluded, not yet
      dispatched, both values present) is marked dispatched at `cycle`, and
      every other station is unchanged. */
  lemma DispatchEffect(stations: seq<Station>, cycle: nat, notAllowed: seq<int>)
    requires |stations| == NUM_STNS
    ensures
      var r := Dispatch(stations, cycle, notAllowed);
      var a := FirstReady(stations, notAllowed, 0, NUM_ADD_STNS);
      var m := FirstReady(stations, notAllowed, NUM_ADD_STNS, NUM_STNS);
      (forall i :: 0 <= i < NUM_STNS && a != Some(i) && m != Some(i) ==> r[i] == stations[i])
      && (a.Some? ==> r[a.value] == stations[a.value].(dispatched := Some(cycle)))
      && (m.Some? ==> r[m.value] == stations[m.value].(dispatched := Some(cycle)))
  {
    var mid := DispatchClass(stations, cycle, notAllowed, 0, NUM_ADD_STNS);
    DispatchClassEffect(stations, cycle, notAllowed, 0, NUM_ADD_STNS);
    DispatchClassEffect(mid, cycle, notAllowed, NUM_ADD_STNS, NUM_STNS);
    FirstReadyFrame(stations, mid, notAllowed, NUM_ADD_STNS, NUM_STNS);
  }

  /** Dispatch only ever marks the current cycle, so markers from earlier
      cycles stay earlier than the next one. */
  lemma DispatchMarksCurrentCycle(stations: seq<Station>, cycle: nat, notAllowed: seq<int>)
    requires |stations| == NUM_STNS && DispatchedBefore(stations, cycle)
    ensures DispatchedBefore(Dispatch(stations, cycle, notAllowed), cycle + 1)
  {
    var r := Dispatch(stations, cycle, notAllowed);
    DispatchEffect(stations, cycle, notAllowed);
    forall i | 0 <= i < |r| && r[i].dispatched.Some? ensures r[i].dispatched.value < cycle + 1 {
      assert r[i] == stations[i] || r[i].dispatched == Some(cycle);
    }
  }

  /** A station in the exclusion list keeps its state through dispatch. */
  lemma DispatchSkipsExcluded(stations: seq<Station>, cycle: nat, notAllowed: seq<int>, i: int)
    requires |stations| == NUM_STNS && 0 <= i < NUM_STNS && i in notAllowed
    ensures Dispatch(stations, cycle, notAllowed)[i] == stations[i]
  {
    DispatchEffect(stations, cycle, notAllowed);
  }

  /** Dispatch changes no station other than by setting a dispatch marker to
      `cycle`, at most once in each class. */
  lemma DispatchAtMostOnePerClass(stations: seq<Station>, cycle: nat, notAllowed: seq<int>, i: int, j: int)
    requires |stations| == NUM_STNS && 0 <= i < j < NUM_STNS
    requires (i < NUM_ADD_STNS) == (j < NUM_ADD_STNS)
    requires Dispatch(stations, cycle, notAllowed)[i] != stations[i]
    ensures Dispatch(stations, cycle, notAllowed)[j] == stations[j]
  {
    DispatchEffect(stations, cycle, notAllowed);
  }
}
