/** The engine as the program runs it: reservation-station objects updated
    in place, the RAT and the register file as arrays, the instruction queue
    reassigned as it is consumed. Every method is proved to move the
    machine's abstract value exactly as its specification function does:
    GetFreeStation as Stages.FreeStation, Broadcast as Stages.CaptureAll and
    Stages.CapturedUpTo, Exclusions as Cycle.Excluded, Step as Cycle.Step,
    Run as Cycle.Simulate, and the others as the Stages function of the same
    name. */
module Engine {
  import opened Tomasulo
  import opened Stages
  import Cycle

  lemma SameStations(a: seq<Station>, b: seq<Station>)
    requires |a| == |b| == NUM_STNS && forall k :: 0 <= k < NUM_STNS ==> a[k] == b[k]
    ensures a == b
  {
  }

  /** Where and why a run stopped early. */
  datatype Abort = Abort(cycle: nat, fault: Fault)

  /** One reservation station. `busy` stands for the simulator's 0/1 flag. */
  class ReservationStation {
    const num: nat
    var busy: bool
    var opcode: Option<Opcode>
    var vj: Option<int>
    var vk: Option<int>
    var qj: Option<StationId>
    var qk: Option<StationId>
    var dispatched: Option<nat>

    /** The station's fields as a value. */
    function View(): Station
      reads this
    {
      Station(busy, opcode, vj, vk, qj, qk, dispatched)
    }

    constructor (n: nat)
      ensures num == n && View() == FREE
    {
      num := n;
      busy, opcode, vj, vk, qj, qk, dispatched := false, None, None, None, None, None, None;
    }

    /** React to the broadcast of `result` by station `s`: a busy station
        takes the value into each operand whose tag is `s`. Reports whether
        it took one. */
    method Capture(s: StationId, result: int) returns (hasCap: bool)
      modifies this
      ensures View() == CaptureAt(old(View()), s, result)
      ensures hasCap == Captures(old(View()), s)
    {
      hasCap := false;
      if !busy {
        return;
      }
      if qj == Some(s) {
        vj := Some(result);
        hasCap := true;
      }
      if qk == Some(s) {
        vk := Some(result);
        hasCap := true;
      }
    }

    /** Free the station after it has broadcast its result. */
    method Reset()
      modifies this
      ensures View() == FREE
    {
      busy := false;
      opcode := None;
      vj := None;
      vk := None;
      qj := None;
      qk := None;
      dispatched := None;
    }
  }

  class Machine {
    const stations: seq<ReservationStation>
    const rat: array<int>
    const rf: array<int>
    var queue: seq<Instruction>

    /** Five distinct station objects numbered by position, and two distinct
        register-sized arrays. Valid() reads only constant fields and the
        array lengths, so no method can break it and none restates it. */
    ghost predicate Valid()
    {
      |stations| == NUM_STNS
      && (forall i :: 0 <= i < NUM_STNS ==> stations[i].num == i)
      && (forall i, j :: 0 <= i < j < NUM_STNS ==> stations[i] != stations[j])
      && rat.Length == NUM_REGISTERS && rf.Length == NUM_REGISTERS && rat != rf
    }

    function Stations(): (r: seq<Station>)
      reads stations
      requires |stations| == NUM_STNS
      ensures |r| == NUM_STNS && forall i :: 0 <= i < NUM_STNS ==> r[i] == stations[i].View()
    {
      [stations[0].View(), stations[1].View(), stations[2].View(), stations[3].View(), stations[4].View()]
    }

    /** The machine as a value. */
    function Abstract(): State
      reads this, stations, rat, rf
      requires |stations| == NUM_STNS
    {
      State(Stations(), rat[..], rf[..], queue)
    }

    /** Five fresh free stations numbered 0 to 4. */
    static method NewStations() returns (r: seq<ReservationStation>)
      ensures |r| == NUM_STNS
      ensures forall i :: 0 <= i < NUM_STNS ==> fresh(r[i]) && r[i].num == i && r[i].View() == FREE
      ensures forall i, j :: 0 <= i < j < NUM_STNS ==> r[i] != r[j]
    {
      var s0 := new ReservationStation(0);
      var s1 := new ReservationStation(1);
      var s2 := new ReservationStation(2);
      var s3 := new ReservationStation(3);
      var s4 := new ReservationStation(4);
      r := [s0, s1, s2, s3, s4];
    }

    /** A fresh array holding `values`. */
    static method NewArray(values: seq<int>) returns (a: array<int>)
      ensures fresh(a) && a[..] == values
    {
      a := new int[|values|](j requires 0 <= j < |values| => values[j]);
    }

    /** Load `program` into the queue and `registers` into the register
        file; every station is free and the RAT is all -1. */
    constructor (program: seq<Instruction>, registers: seq<int>)
      requires |registers| == NUM_REGISTERS
      ensures Valid() && Abstract() == Initial(program, registers)
    {
      var init := Initial(program, registers);
      var s := NewStations();
      var a := NewArray(init.rat);
      var b := NewArray(registers);
      stations, rat, rf := s, a, b;
      queue := program;
      new;
      SameStations(Stations(), init.stations);
    }

    /** The lowest-index free station of the class `op` needs, scanning the
        Add/Sub stations [0, 3) or the Mul/Div stations [3, 5). */
    method GetFreeStation(op: Opcode) returns (r: Option<StationId>)
      requires Valid()
      ensures r == FreeStation(Stations(), op)
      ensures r.Some? ==> InPartition(r.value, op) && !stations[r.value].busy
      ensures forall k :: InPartition(k, op) && (r.None? || k < r.value) ==> stations[k].busy
    {
      var i := PartitionLo(op);
      while i < PartitionHi(op) && stations[i].busy
        invariant PartitionLo(op) <= i <= PartitionHi(op)
        invariant forall k :: PartitionLo(op) <= k < i ==> stations[k].busy
      {
        i := i + 1;
      }
      r := if i < PartitionHi(op) then Some(i as StationId) else None;
      var f := FreeStation(Stations(), op);
      assert f.Some? ==> !(f.value < i) && !(i < f.value);
    }

    /** Station `s` takes instruction `ins`, reading the RAT and the
        register file. */
    method Occupy(s: StationId, ins: Instruction)
      requires Valid() && Renamable(rat[..], ins.src1) && Renamable(rat[..], ins.src2)
      modifies stations[s]
      ensures stations[s].View() == Stages.Occupy(old(stations[s].View()), ins, rat[..], rf[..])
    {
      var station := stations[s];
      assert rat[..][ins.src1] == rat[ins.src1] && rat[..][ins.src2] == rat[ins.src2];
      station.busy := true;
      station.opcode := Some(ins.opcode);
      if rat[ins.src1] == NO_STATION {
        station.vj := Some(rf[ins.src1]);
      } else {
        station.qj := Some(rat[ins.src1] as StationId);
      }
      if rat[ins.src2] == NO_STATION {
        station.vk := Some(rf[ins.src2]);
      } else {
        station.qk := Some(rat[ins.src2] as StationId);
      }
    }

    /** Issue the head of the queue, if a station of its class is free. */
    method Issue() returns (issued: Option<StationId>)
      requires Valid() && Inv(Abstract())
      modifies this, stations, rat
      ensures var out := Stages.Issue(old(Abstract()));
        issued == out.issued && Abstract() == out.state
    {
      ghost var before := Abstract();
      if |queue| == 0 {
        return None;
      }
      var ins := queue[0];
      var free := GetFreeStation(ins.opcode);
      if free.None? {
        return None;
      }
      var s := free.value;
      Occupy(s, ins);
      assert Stations() == before.stations[s := stations[s].View()];
      rat[ins.dst] := s;
      queue := queue[1..];
      issued := Some(s);
      assert rat[..] == before.rat[ins.dst := s];
    }

    /** Send `result`, the value of station `s`, to every busy station: each
        operand whose tag is `s` takes it (the tag stays), and each station
        that took a value is appended to `captured`. */
    method Broadcast(s: StationId, result: int, captured: seq<StationId>) returns (out: seq<StationId>)
      requires Valid()
      modifies stations
      ensures Stations() == CaptureAll(old(Stations()), s, result)
      ensures out == captured + CapturedUpTo(old(Stations()), s, NUM_STNS)
      ensures rat[..] == old(rat[..]) && rf[..] == old(rf[..])
    {
      ghost var before := Stations();
      var found: seq<StationId> := [];
      var i := 0;
      while i < NUM_STNS
        invariant 0 <= i <= NUM_STNS
        invariant forall k :: 0 <= k < i ==> stations[k].View() == CaptureAt(before[k], s, result)
        invariant forall k :: i <= k < NUM_STNS ==> stations[k].View() == before[k]
        invariant found == CapturedUpTo(before, s, i)
      {
        var hasCap := stations[i].Capture(s, result);
        if hasCap {
          found := found + [i as StationId];
        }
        i := i + 1;
      }
      out := captured + found;
      SameStations(Stations(), CaptureAll(before, s, result));
    }

    /** Write `result` into the first register renamed to `s` and set its RAT
        entry back to -1. */
    method WriteBack(s: StationId, result: int)
      requires Valid()
      modifies rat, rf
      ensures (rat[..], rf[..]) == Stages.WriteBack(old(rat[..]), old(rf[..]), s, result)
      ensures Stations() == old(Stations())
    {
      var j := 0;
      while j < NUM_REGISTERS && rat[j] != s
        invariant 0 <= j <= NUM_REGISTERS
        invariant forall k :: 0 <= k < j ==> rat[k] != s
      {
        j := j + 1;
      }
      var f := RegisterOf(rat[..], s);
      assert f.Some? ==> !(f.value < j) && !(j < f.value);
      if j < NUM_REGISTERS {
        rf[j] := result;
        rat[j] := NO_STATION;
      }
    }

    /** Station `s`, whose latency has elapsed, computes its result, writes
        it back, broadcasts it and is reset. A zero divisor stops before any
        of this. */
    method Complete(s: StationId) returns (fault: Option<Fault>, captured: seq<StationId>)
      requires Valid() && Inv(Abstract()) && stations[s].dispatched.Some?
      modifies stations, rat, rf
      ensures var r := Stages.Complete(old(Abstract()), s);
        (r.Err? ==> fault == Some(r.fault) && Abstract() == old(Abstract()))
        && (r.Ok? ==> fault.None? && Abstract() == r.value.state && captured == r.value.captured)
    {
      ghost var before := Abstract();
      var station := stations[s];
      assert StationOk(s, before.stations[s]);
      var v := ComputeResult(station.opcode.value, station.vj.value, station.vk.value);
      if v.None? {
        return Some(DivideByZero(s, station.vj.value)), [];
      }
      ghost var wb := Stages.WriteBack(rat[..], rf[..], s, v.value);
      captured := Retire(s, v.value);
      fault := None;
      assert Abstract() == State(CaptureAll(before.stations, s, v.value)[s := FREE], wb.0, wb.1, before.queue);
    }

    /** Station `s` writes `result` back, broadcasts it and is reset. */
    method Retire(s: StationId, result: int) returns (captured: seq<StationId>)
      requires Valid()
      modifies stations, rat, rf
      ensures Stations() == CaptureAll(old(Stations()), s, result)[s := FREE]
      ensures (rat[..], rf[..]) == Stages.WriteBack(old(rat[..]), old(rf[..]), s, result)
      ensures captured == CapturedUpTo(old(Stations()), s, NUM_STNS)
    {
      ghost var before := Stations();
      WriteBack(s, result);
      captured := Broadcast(s, result, []);
      ghost var mid := Stations();
      stations[s].Reset();
      ghost var target := CaptureAll(before, s, result)[s := FREE];
      forall k | 0 <= k < NUM_STNS ensures Stations()[k] == target[k] {
        if k != s {
          assert stations[k].View() == mid[k];
        }
      }
      SameStations(Stations(), target);
    }

    /** At most one station completes per cycle: the lowest-index eligible
        Mul/Div station, else the lowest-index eligible Add/Sub station. */
    method BroadcastAndCapture(cycle: nat) returns (fault: Option<Fault>, captured: seq<StationId>)
      requires Valid() && Inv(Abstract())
      modifies stations, rat, rf
      ensures var r := Stages.BroadcastAndCapture(old(Abstract()), cycle);
        (r.Err? ==> fault == Some(r.fault) && Abstract() == old(Abstract()))
        && (r.Ok? ==> fault.None? && Abstract() == r.value.state && captured == r.value.captured)
    {
      ghost var before := Abstract();
      var i := NUM_ADD_STNS;
      while i < NUM_STNS && !Eligible(stations[i].View(), cycle)
        invariant NUM_ADD_STNS <= i <= NUM_STNS
        invariant forall k :: NUM_ADD_STNS <= k < i ==> !Eligible(before.stations[k], cycle)
      {
        i := i + 1;
      }
      ghost var m := FirstEligible(before.stations, cycle, NUM_ADD_STNS, NUM_STNS);
      assert m.Some? ==> !(m.value < i) && !(i < m.value);
      if i < NUM_STNS {
        fault, captured := Complete(i);
        return;
      }
      i := 0;
      while i < NUM_ADD_STNS && !Eligible(stations[i].View(), cycle)
        invariant 0 <= i <= NUM_ADD_STNS
        invariant forall k :: 0 <= k < i ==> !Eligible(before.stations[k], cycle)
      {
        i := i + 1;
      }
      ghost var a := FirstEligible(before.stations, cycle, 0, NUM_ADD_STNS);
      assert a.Some? ==> !(a.value < i) && !(i < a.value);
      if i < NUM_ADD_STNS {
        fault, captured := Complete(i);
      } else {
        fault, captured := None, [];
      }
    }

    /** Mark the lowest-index station of [lo, hi) that is busy, not in
        `notAllowed`, not yet dispatched and has both values as dispatched
        in `cycle`. */
    method DispatchClass(cycle: nat, notAllowed: seq<int>, lo: nat, hi: nat)
      requires Valid() && lo <= hi <= NUM_STNS
      modifies stations
      ensures Stations() == Stages.DispatchClass(old(Stations()), cycle, notAllowed, lo, hi)
    {
      ghost var before := Stations();
      var i := lo;
      while i < hi && !(i !in notAllowed && stations[i].busy && stations[i].dispatched.None?
                        && stations[i].vj.Some? && stations[i].vk.Some?)
        invariant lo <= i <= hi
        invariant forall k :: lo <= k < i ==> !Ready(before, notAllowed, k)
      {
        i := i + 1;
      }
      ghost var f := FirstReady(before, notAllowed, lo, hi);
      assert f.Some? ==> !(f.value < i) && !(i < f.value);
      if i < hi {
        stations[i].dispatched := Some(cycle);
        assert Stations() == before[i := before[i].(dispatched := Some(cycle))];
      }
    }

    /** One dispatch for the Add/Sub stations, then one for the Mul/Div
        stations. */
    method Dispatch(cycle: nat, notAllowed: seq<int>)
      requires Valid()
      modifies stations
      ensures Stations() == Stages.Dispatch(old(Stations()), cycle, notAllowed)
      ensures Abstract() == old(Abstract()).(stations := Stages.Dispatch(old(Abstract()).stations, cycle, notAllowed))
    {
      DispatchClass(cycle, notAllowed, 0, NUM_ADD_STNS);
      DispatchClass(cycle, notAllowed, NUM_ADD_STNS, NUM_STNS);
    }

    /** The driver's list of stations barred from dispatch this cycle. */
    static method Exclusions(issued: Option<StationId>, captured: seq<StationId>) returns (notAllowed: seq<int>)
      ensures notAllowed == Cycle.Excluded(issued, captured)
    {
      notAllowed := [];
      if issued.Some? {
        notAllowed := notAllowed + [issued.value as int];
      }
      notAllowed := notAllowed + captured;
    }

    /** One cycle of the driver: issue, broadcast and capture, then dispatch
        with the issued and capturing stations held back. */
    method Step(cycle: nat) returns (issued: Option<StationId>, captured: seq<StationId>, fault: Option<Fault>)
      requires Valid() && Inv(Abstract())
      modifies this, stations, rat, rf
      ensures var r := Cycle.Step(old(Abstract()), cycle);
        Abstract() == r.state
        && (r.Stepped? ==> fault.None? && issued == r.issued && captured == r.captured)
        && (r.Aborted? ==> fault == Some(r.fault))
    {
      ghost var st := Abstract();
      issued := Issue();
      ghost var iss := Stages.Issue(st);
      var f, capturedStns := BroadcastAndCapture(cycle);
      ghost var bc := Stages.BroadcastAndCapture(iss.state, cycle);
      if f.Some? {
        assert Cycle.Step(st, cycle) == Cycle.Aborted(iss.state, bc.fault);
        return issued, [], f;
      }
      var notAllowed := Exclusions(issued, capturedStns);
      Dispatch(cycle, notAllowed);
      captured, fault := capturedStns, None;
    }

    /** Run `totalCycles` cycles from the current machine, stopping at the
        first division by zero. */
    method Run(totalCycles: nat) returns (aborted: Option<Abort>)
      requires Valid() && Inv(Abstract())
      modifies this, stations, rat, rf
      ensures var o := Cycle.Simulate(old(Abstract()), totalCycles);
        Abstract() == o.state
        && (aborted.None? <==> o.Finished?)
        && (aborted.Some? ==> o == Cycle.Faulted(aborted.value.cycle, aborted.value.fault, Abstract()))
    {
      ghost var st0 := Abstract();
      var cycle := 0;
      while cycle < totalCycles
        invariant cycle <= totalCycles
        invariant Cycle.Simulate(st0, cycle) == Cycle.Finished(Abstract())
      {
        var issued, captured, fault := Step(cycle);
        if fault.Some? {
          Cycle.FaultIsFinal(st0, cycle + 1, totalCycles);
          return Some(Abort(cycle, fault.value));
        }
        cycle := cycle + 1;
      }
      aborted := None;
    }
  }
}
