/** The three per-cycle stages of the engine as functions on the machine
    state: issue, broadcast and capture, dispatch. Each one keeps the machine
    invariant `Inv`. */
module Stages {
  import opened Tomasulo

  // ---------------------------------------------------------------- issue

  /** The lowest-index free station of the class `op` needs, if any. */
  function FreeStation(stations: seq<Station>, op: Opcode): (r: Option<StationId>)
    requires |stations| == NUM_STNS
    ensures r.Some? ==> InPartition(r.value, op) && !stations[r.value].busy
    ensures forall k :: InPartition(k, op) && (r.None? || k < r.value) ==> stations[k].busy
  {
    var f := FirstWhere(k => 0 <= k < |stations| && !stations[k].busy, PartitionLo(op), PartitionHi(op));
    if f.Some? then Some(f.value as StationId) else None
  }

  datatype IssueOutcome = IssueOutcome(state: State, issued: Option<StationId>)

  /** A RAT entry that is -1 or a station number. */
  predicate Renamable(rat: seq<int>, j: Reg)
  {
    j < |rat| && (rat[j] == NO_STATION || 0 <= rat[j] < NUM_STNS)
  }

  /** Station `stn` taking instruction `ins`: busy with its opcode, each
      source operand read from the register file when the RAT entry is -1
      and given the RAT's tag otherwise. Only the field of the twin pair that
      applies is written. */
  function Occupy(stn: Station, ins: Instruction, rat: seq<int>, rf: seq<int>): (r: Station)
    requires |rf| == |rat| && Renamable(rat, ins.src1) && Renamable(rat, ins.src2)
    ensures r.busy && r.opcode == Some(ins.opcode) && r.dispatched == stn.dispatched
    ensures rat[ins.src1] == NO_STATION ==> r.vj == Some(rf[ins.src1]) && r.qj == stn.qj
    ensures rat[ins.src1] != NO_STATION ==> r.qj == Some(rat[ins.src1] as StationId) && r.vj == stn.vj
    ensures rat[ins.src2] == NO_STATION ==> r.vk == Some(rf[ins.src2]) && r.qk == stn.qk
    ensures rat[ins.src2] != NO_STATION ==> r.qk == Some(rat[ins.src2] as StationId) && r.vk == stn.vk
  {
    var stn0 := stn.(busy := true, opcode := Some(ins.opcode));
    var stn1 := if rat[ins.src1] == NO_STATION then stn0.(vj := Some(rf[ins.src1]))
                else stn0.(qj := Some(rat[ins.src1] as StationId));
    if rat[ins.src2] == NO_STATION then stn1.(vk := Some(rf[ins.src2]))
    else stn1.(qk := Some(rat[ins.src2] as StationId))
  }

  /** Issue the head of the queue into the lowest free station of its class;
      the destination register is renamed to that station and the queue loses
      its head. With an empty queue or no free station nothing changes. */
  function Issue(st: State): (out: IssueOutcome)
    requires Inv(st)
    ensures Inv(out.state)
  {
    if |st.queue| == 0 then IssueOutcome(st, None)
    else
      var ins := st.queue[0];
      var free := FreeStation(st.stations, ins.opcode);
      if free.None? then IssueOutcome(st, None)
      else
        var s := free.value;
        IssueKeepsInv(st, ins, s);
        var stn := Occupy(st.stations[s], ins, st.rat, st.rf);
        IssueOutcome(State(st.stations[s := stn], st.rat[ins.dst := s], st.rf, st.queue[1..]), Some(s))
  }

  /** Occupying a free station of the right class and renaming the
      destination to it keeps the invariant. */
  lemma IssueKeepsInv(st: State, ins: Instruction, s: StationId)
    requires Inv(st) && |st.queue| > 0 && !st.stations[s].busy && InPartition(s, ins.opcode)
    ensures Inv(State(st.stations[s := Occupy(st.stations[s], ins, st.rat, st.rf)], st.rat[ins.dst := s],
                      st.rf, st.queue[1..]))
  {
  }

  // -------------------------------------------------------------- compute

  function Abs(x: int): int
  {
    if x < 0 then -x else x
  }

  /** Integer division truncating toward zero, as `int(v1/v2)` does: the
      remainder has the sign of the dividend and is smaller than the divisor
      in magnitude. */
  function TruncDiv(a: int, b: int): (q: int)
    requires b != 0
    ensures a >= 0 ==> 0 <= a - q * b < Abs(b)
    ensures a < 0 ==> -Abs(b) < a - q * b <= 0
  {
    if a >= 0 && b > 0 then a / b
    else if a < 0 && b < 0 then (-a) / (-b)
    else if a >= 0 then -(a / (-b))
    else -((-a) / b)
  }

  /** The result of operation `op` on the two operand values, or None for a
      division by zero. */
  function ComputeResult(op: Opcode, v1: int, v2: int): (r: Option<int>)
    ensures r.None? <==> op == DIV && v2 == 0
    ensures op == DIV && v2 != 0 ==>
      (v1 >= 0 ==> 0 <= v1 - r.value * v2 < Abs(v2)) && (v1 < 0 ==> -Abs(v2) < v1 - r.value * v2 <= 0)
  {
    if op == ADD then Some(v1 + v2)
    else if op == SUB then Some(v1 - v2)
    else if op == MUL then Some(v1 * v2)
    else if v2 == 0 then None
    else Some(TruncDiv(v1, v2))
  }

  // ---------------------------------------------------- broadcast/capture

  /** A busy station listens for tag `s` on either operand. */
  predicate Captures(stn: Station, s: StationId)
  {
    stn.busy && (stn.qj == Some(s) || stn.qk == Some(s))
  }

  /** One station's reaction to the broadcast of `result` by `s`: each operand
      whose tag is `s` takes the value; tags are never cleared. */
  function CaptureAt(stn: Station, s: StationId, result: int): (r: Station)
    ensures r.busy == stn.busy && r.opcode == stn.opcode && r.dispatched == stn.dispatched
    ensures r.qj == stn.qj && r.qk == stn.qk
    ensures r != stn ==> Captures(stn, s)
    ensures r.vj != stn.vj ==> r.vj == Some(result)
    ensures r.vk != stn.vk ==> r.vk == Some(result)
  {
    if !stn.busy then stn
    else stn.(vj := if stn.qj == Some(s) then Some(result) else stn.vj,
              vk := if stn.qk == Some(s) then Some(result) else stn.vk)
  }

  function CaptureAll(stations: seq<Station>, s: StationId, result: int): (r: seq<Station>)
    ensures |r| == |stations|
    ensures forall k :: 0 <= k < |stations| && !Captures(stations[k], s) ==> r[k] == stations[k]
  {
    seq(|stations|, k requires 0 <= k < |stations| => CaptureAt(stations[k], s, result))
  }

  /** The indices below n of the stations that capture `s`, in scan order. */
  function CapturedUpTo(stations: seq<Station>, s: StationId, n: nat): (c: seq<StationId>)
    requires n <= |stations| <= NUM_STNS
    ensures |c| <= n
    decreases n
  {
    if n == 0 then []
    else CapturedUpTo(stations, s, n - 1) + (if Captures(stations[n - 1], s) then [(n - 1) as StationId] else [])
  }

  /** Every captured index is below n. */
  lemma {:induction false} CapturedUpToBound(stations: seq<Station>, s: StationId, n: nat)
    requires n <= |stations| <= NUM_STNS
    ensures forall a :: 0 <= a < |CapturedUpTo(stations, s, n)| ==> CapturedUpTo(stations, s, n)[a] < n
    decreases n
  {
    if n > 0 {
      CapturedUpToBound(stations, s, n - 1);
    }
  }

  /** The captured list is in increasing order of station index. */
  lemma {:induction false} CapturedUpToSorted(stations: seq<Station>, s: StationId, n: nat)
    requires n <= |stations| <= NUM_STNS
    ensures forall a, b :: 0 <= a < b < |CapturedUpTo(stations, s, n)| ==>
      CapturedUpTo(stations, s, n)[a] < CapturedUpTo(stations, s, n)[b]
    decreases n
  {
    if n > 0 && Captures(stations[n - 1], s) {
      CapturedUpToSorted(stations, s, n - 1);
      CapturedUpToBound(stations, s, n - 1);
      var c := CapturedUpTo(stations, s, n - 1);
      var c' := CapturedUpTo(stations, s, n);
      assert c' == c + [(n - 1) as StationId];
      forall a, b | 0 <= a < b < |c'| ensures c'[a] < c'[b] {
        assert c'[a] == c[a];
        if b < |c| {
          assert c'[b] == c[b];
        } else {
          assert c'[b] == n - 1;
        }
      }
    } else if n > 0 {
      CapturedUpToSorted(stations, s, n - 1);
      assert CapturedUpTo(stations, s, n) == CapturedUpTo(stations, s, n - 1);
    }
  }

  /** The captured list holds exactly the capturing stations below n. */
  lemma {:induction false} CapturedUpToMembers(stations: seq<Station>, s: StationId, n: nat)
    requires n <= |stations| <= NUM_STNS
    ensures forall x: int :: x in CapturedUpTo(stations, s, n) <==> 0 <= x < n && Captures(stations[x], s)
    decreases n
  {
    if n > 0 {
      CapturedUpToMembers(stations, s, n - 1);
    }
  }

  /** The lowest register whose RAT entry names `s`. */
  function RegisterOf(rat: seq<int>, s: StationId): (j: Option<int>)
    ensures j.Some? ==> 0 <= j.value < |rat| && rat[j.value] == s
    ensures forall k :: 0 <= k < |rat| && (j.None? || k < j.value) ==> rat[k] != s
  {
    var p := k => 0 <= k < |rat| && rat[k] == s;
    var f := FirstWhere(p, 0, |rat|);
    assert forall k :: 0 <= k < |rat| && (f.None? || k < f.value) ==> rat[k] != s by {
      forall k | 0 <= k < |rat| && (f.None? || k < f.value) ensures rat[k] != s { assert !p(k); }
    }
    f
  }

  /** Write `result` into the first register renamed to `s` and mark it
      resolved; without such a register nothing changes. */
  function WriteBack(rat: seq<int>, rf: seq<int>, s: StationId, result: int): (wb: (seq<int>, seq<int>))
    requires |rat| == |rf|
    ensures |wb.0| == |rat| && |wb.1| == |rf|
    ensures forall j :: 0 <= j < |rat| && (wb.0[j] != rat[j] || wb.1[j] != rf[j]) ==>
      rat[j] == s && wb.0[j] == NO_STATION && wb.1[j] == result
  {
    var j := RegisterOf(rat, s);
    if j.Some? then (rat[j.value := NO_STATION], rf[j.value := result]) else (rat, rf)
  }

  /** A busy, dispatched station whose latency has elapsed. */
  predicate Eligible(stn: Station, cycle: nat)
    ensures Eligible(stn, cycle) ==> stn.dispatched.Some? && stn.dispatched.value + 2 <= cycle
  {
    stn.busy && stn.dispatched.Some? && stn.opcode.Some?
    && cycle >= stn.dispatched.value + Latency(stn.opcode.value)
  }

  predicate EligibleAt(stations: seq<Station>, cycle: nat, k: int)
  {
    0 <= k < |stations| && Eligible(stations[k], cycle)
  }

  /** The lowest-index eligible station in [lo, hi). */
  function FirstEligible(stations: seq<Station>, cycle: nat, lo: nat, hi: nat): (r: Option<StationId>)
    requires hi <= |stations| == NUM_STNS
    ensures r.Some? ==> lo <= r.value < hi && Eligible(stations[r.value], cycle)
    ensures forall k :: lo <= k < hi && (r.None? || k < r.value) ==> !Eligible(stations[k], cycle)
  {
    var p := k => EligibleAt(stations, cycle, k);
    var f := FirstWhere(p, lo, hi);
    assert forall k :: lo <= k < hi && (f.None? || k < f.value) ==> !Eligible(stations[k], cycle) by {
      forall k | lo <= k < hi && (f.None? || k < f.value) ensures !Eligible(stations[k], cycle) { assert !p(k); }
    }
    if f.Some? then Some(f.value as StationId) else None
  }

  /** The station that completes this cycle: the lowest-index eligible
      Mul/Div station, else the lowest-index eligible Add/Sub station. */
  function Winner(stations: seq<Station>, cycle: nat): (w: Option<StationId>)
    requires |stations| == NUM_STNS
    ensures w.Some? ==> Eligible(stations[w.value], cycle)
    ensures w.Some? && w.value >= NUM_ADD_STNS ==>
      forall k :: NUM_ADD_STNS <= k < w.value ==> !Eligible(stations[k], cycle)
    ensures w.Some? && w.value < NUM_ADD_STNS ==>
      forall k :: (0 <= k < w.value || NUM_ADD_STNS <= k < NUM_STNS) ==> !Eligible(stations[k], cycle)
    ensures w.None? ==> forall k :: 0 <= k < NUM_STNS ==> !Eligible(stations[k], cycle)
  {
    var m := FirstEligible(stations, cycle, NUM_ADD_STNS, NUM_STNS);
    if m.Some? then m else FirstEligible(stations, cycle, 0, NUM_ADD_STNS)
  }

  /** Raised where the simulator's `int(v1/v2)` fails on a zero divisor. */
  datatype Fault = DivideByZero(station: StationId, dividend: int)

  datatype Completion = Completion(state: State, captured: seq<StationId>)

  datatype Result = Ok(value: Completion) | Err(fault: Fault)

  /** Station `s` retires with `result`: the result is written back through
      the RAT and broadcast to every busy station, then `s` is reset. */
  function Retire(st: State, s: StationId, result: int): (r: State)
    requires |st.stations| == NUM_STNS && |st.rat| == |st.rf|
    ensures |r.stations| == NUM_STNS && r.stations[s] == FREE
    ensures |r.rat| == |st.rat| && |r.rf| == |st.rf| && r.queue == st.queue
  {
    var wb := WriteBack(st.rat, st.rf, s, result);
    State(CaptureAll(st.stations, s, result)[s := FREE], wb.0, wb.1, st.queue)
  }

  /** Station `s` completes: compute its result, then retire it; a zero
      divisor is a fault and changes nothing. */
  function Complete(st: State, s: StationId): (r: Result)
    requires Inv(st) && st.stations[s].dispatched.Some?
    ensures r.Ok? ==> Inv(r.value.state)
  {
    var stn := st.stations[s];
    var v := ComputeResult(stn.opcode.value, stn.vj.value, stn.vk.value);
    if v.None? then Err(DivideByZero(s, stn.vj.value))
    else
      CompleteKeepsInv(st, s, v.value);
      Ok(Completion(Retire(st, s, v.value), CapturedUpTo(st.stations, s, NUM_STNS)))
  }

  /** The register renamed to `s`, if any, is written and resolved; every
      other RAT entry and register is untouched, and afterwards no entry
      names `s`. */
  lemma WriteBackEffect(rat: seq<int>, rf: seq<int>, s: StationId, result: int)
    requires |rat| == |rf| && RatDistinct(rat)
    ensures var wb := WriteBack(rat, rf, s, result);
      |wb.0| == |rat| && |wb.1| == |rf|
      && (forall j :: 0 <= j < |rat| && rat[j] == s ==> wb.0[j] == NO_STATION && wb.1[j] == result)
      && (forall j :: 0 <= j < |rat| && rat[j] != s ==> wb.0[j] == rat[j] && wb.1[j] == rf[j])
  {
    var f := RegisterOf(rat, s);
    if f.Some? {
      forall j | 0 <= j < |rat| && rat[j] == s ensures j == f.value {
        assert rat[f.value] == s;
      }
    }
  }

  /** Capturing keeps occupancy and the station invariant of every station. */
  lemma CaptureAllKeepsStations(stations: seq<Station>, s: StationId, result: int)
    requires |stations| == NUM_STNS
    ensures |CaptureAll(stations, s, result)| == NUM_STNS
    ensures forall i :: 0 <= i < NUM_STNS ==>
      CaptureAll(stations, s, result)[i].busy == stations[i].busy
      && (StationOk(i, stations[i]) ==> StationOk(i, CaptureAll(stations, s, result)[i]))
  {
  }

  lemma CompleteKeepsInv(st: State, s: StationId, result: int)
    requires Inv(st) && st.stations[s].busy
    ensures Inv(Retire(st, s, result))
  {
    var wb := WriteBack(st.rat, st.rf, s, result);
    WriteBackEffect(st.rat, st.rf, s, result);
    CaptureAllKeepsStations(st.stations, s, result);
    var stations := CaptureAll(st.stations, s, result)[s := FREE];
    assert RatNamesBusy(stations, wb.0) by {
      forall j | 0 <= j < NUM_REGISTERS && wb.0[j] != NO_STATION
        ensures 0 <= wb.0[j] < NUM_STNS && stations[wb.0[j]].busy
      {
        assert wb.0[j] == st.rat[j] && st.rat[j] != s;
      }
    }
    assert RatDistinct(wb.0) by {
      forall j1, j2 | 0 <= j1 < NUM_REGISTERS && 0 <= j2 < NUM_REGISTERS && j1 != j2 && wb.0[j1] != NO_STATION
        ensures wb.0[j1] != wb.0[j2]
      {
        assert wb.0[j1] == st.rat[j1];
      }
    }
  }

  /** At most one station completes: the Winner, if there is one. */
  function BroadcastAndCapture(st: State, cycle: nat): (r: Result)
    requires Inv(st)
    ensures r.Ok? ==> Inv(r.value.state)
  {
    var w := Winner(st.stations, cycle);
    if w.None? then Ok(Completion(st, [])) else Complete(st, w.value)
  }

  // ------------------------------------------------------------- dispatch

  /** A station that may begin execution this cycle. */
  predicate Ready(stations: seq<Station>, notAllowed: seq<int>, k: int)
    ensures Ready(stations, notAllowed, k) ==> 0 <= k < |stations| && forall c: nat :: !Eligible(stations[k], c)
  {
    0 <= k < |stations| && k !in notAllowed && stations[k].busy
    && stations[k].dispatched.None? && stations[k].vj.Some? && stations[k].vk.Some?
  }

  /** The lowest-index Ready station in [lo, hi). */
  function FirstReady(stations: seq<Station>, notAllowed: seq<int>, lo: nat, hi: nat): (r: Option<nat>)
    ensures r.Some? ==> lo <= r.value < hi && Ready(stations, notAllowed, r.value)
    ensures forall k :: lo <= k < hi && (r.None? || k < r.value) ==> !Ready(stations, notAllowed, k)
  {
    var p := k => Ready(stations, notAllowed, k);
    var f := FirstWhere(p, lo, hi);
    assert forall k :: lo <= k < hi && (f.None? || k < f.value) ==> !Ready(stations, notAllowed, k) by {
      forall k | lo <= k < hi && (f.None? || k < f.value) ensures !Ready(stations, notAllowed, k) { assert !p(k); }
    }
    if f.Some? then Some(f.value as nat) else None
  }

  /** Mark the lowest-index Ready station of [lo, hi) dispatched at `cycle`. */
  function DispatchClass(stations: seq<Station>, cycle: nat, notAllowed: seq<int>, lo: nat, hi: nat): (r: seq<Station>)
    ensures |r| == |stations|
    ensures forall i :: 0 <= i < |stations| && !(lo <= i < hi) ==> r[i] == stations[i]
    ensures forall i :: 0 <= i < |stations| && r[i] != stations[i] ==>
      stations[i].dispatched.None? && r[i] == stations[i].(dispatched := Some(cycle))
  {
    var k := FirstReady(stations, notAllowed, lo, hi);
    if k.Some? then stations[k.value := stations[k.value].(dispatched := Some(cycle))] else stations
  }

  /** One dispatch per class: Add/Sub first, then Mul/Div. Occupancy and the
      station invariant are kept. */
  function Dispatch(stations: seq<Station>, cycle: nat, notAllowed: seq<int>): (r: seq<Station>)
    ensures |r| == |stations|
    ensures forall i :: 0 <= i < |stations| ==>
      r[i].busy == stations[i].busy && (StationOk(i, stations[i]) ==> StationOk(i, r[i]))
  {
    DispatchClass(DispatchClass(stations, cycle, notAllowed, 0, NUM_ADD_STNS), cycle, notAllowed, NUM_ADD_STNS, NUM_STNS)
  }
}
