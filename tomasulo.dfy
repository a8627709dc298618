/** Data model of the Tomasulo scheduling engine: the fixed pool of five
    reservation stations, the register alias table (RAT), the register file
    and the instruction queue, as values, together with the invariant that
    every reachable machine state satisfies. */
module Tomasulo {

  datatype Option<T> = None | Some(value: T)

  // Fixed configuration of the machine.
  const NUM_ADD_STNS: nat := 3
  const NUM_MUL_STNS: nat := 2
  const NUM_STNS: nat := 5
  const NUM_REGISTERS: nat := 8

  /** Latency of each operation, indexed by opcode: Add, Sub, Mul, Div. */
  const OP_CYCLES: seq<nat> := [2, 2, 10, 40]

  const ADD: Opcode := 0
  const SUB: Opcode := 1
  const MUL: Opcode := 2
  const DIV: Opcode := 3

  /** The RAT value meaning "not associated with any station". */
  const NO_STATION: int := -1

  type Opcode = x: int | 0 <= x < 4
  type Reg = x: int | 0 <= x < 8
  type StationId = x: int | 0 <= x < 5

  function Latency(op: Opcode): nat
  {
    OP_CYCLES[op]
  }

  /** Stations [0, 3) serve Add/Sub, stations [3, 5) serve Mul/Div. */
  function PartitionLo(op: Opcode): nat
  {
    if op < 2 then 0 else NUM_ADD_STNS
  }

  function PartitionHi(op: Opcode): nat
  {
    if op < 2 then NUM_ADD_STNS else NUM_ADD_STNS + NUM_MUL_STNS
  }

  predicate InPartition(i: int, op: Opcode)
  {
    PartitionLo(op) <= i < PartitionHi(op)
  }

  datatype Instruction = Instruction(opcode: Opcode, dst: Reg, src1: Reg, src2: Reg)

  /** A snapshot of one reservation station. Each operand is the twin pair
      (V, Q): V is the captured value, Q the tag of the producing station.
      `dispatched` is the cycle in which execution began. */
  datatype Station = Station(
    busy: bool,
    opcode: Option<Opcode>,
    vj: Option<int>,
    vk: Option<int>,
    qj: Option<StationId>,
    qk: Option<StationId>,
    dispatched: Option<nat>)

  /** A station after construction or `reset`. */
  const FREE: Station := Station(false, None, None, None, None, None, None)

  datatype State = State(
    stations: seq<Station>,
    rat: seq<int>,
    rf: seq<int>,
    queue: seq<Instruction>)

  /** The lowest index k in [lo, hi) with p(k), the shape of every
      index-ordered scan with `break` in the engine. */
  function FirstWhere(p: int -> bool, lo: int, hi: int): (r: Option<int>)
    decreases hi - lo
    ensures r.Some? ==> lo <= r.value < hi && p(r.value)
    ensures forall k :: lo <= k < hi && (r.None? || k < r.value) ==> !p(k)
  {
    if lo >= hi then None
    else if p(lo) then Some(lo)
    else FirstWhere(p, lo + 1, hi)
  }

  /** A free station holds nothing; a busy one holds an operation of its own
      class, each operand as a value or a tag, and values for both operands
      once dispatched. */
  predicate StationOk(i: int, s: Station)
  {
    if !s.busy then s == FREE
    else
      s.opcode.Some? && InPartition(i, s.opcode.value)
      && (s.vj.Some? || s.qj.Some?) && (s.vk.Some? || s.qk.Some?)
      && (s.dispatched.Some? ==> s.vj.Some? && s.vk.Some?)
  }

  /** Every RAT entry is -1 or names a busy station. */
  predicate RatNamesBusy(stations: seq<Station>, rat: seq<int>)
    requires |stations| == NUM_STNS
  {
    forall j :: 0 <= j < |rat| ==>
      rat[j] == NO_STATION || (0 <= rat[j] < NUM_STNS && stations[rat[j]].busy)
  }

  /** No station is named by two registers. */
  predicate RatDistinct(rat: seq<int>)
  {
    forall j1, j2 :: 0 <= j1 < |rat| && 0 <= j2 < |rat| && j1 != j2 && rat[j1] != NO_STATION ==>
      rat[j1] != rat[j2]
  }

  predicate RatOk(stations: seq<Station>, rat: seq<int>)
    requires |stations| == NUM_STNS
  {
    RatNamesBusy(stations, rat) && RatDistinct(rat)
  }

  predicate Inv(st: State)
  {
    |st.stations| == NUM_STNS && |st.rat| == NUM_REGISTERS && |st.rf| == NUM_REGISTERS
    && (forall i :: 0 <= i < NUM_STNS ==> StationOk(i, st.stations[i]))
    && RatOk(st.stations, st.rat)
  }

  /** Every dispatch marker names a cycle before `cycle`. */
  predicate DispatchedBefore(stations: seq<Station>, cycle: nat)
  {
    forall i :: 0 <= i < |stations| && stations[i].dispatched.Some? ==> stations[i].dispatched.value < cycle
  }

  /** The machine right after loading: all stations free, the RAT all -1. */
  function Initial(program: seq<Instruction>, registers: seq<int>): (st: State)
    requires |registers| == NUM_REGISTERS
    ensures Inv(st) && DispatchedBefore(st.stations, 0)
    ensures st.queue == program && st.rf == registers
    ensures forall i :: 0 <= i < NUM_STNS ==> !st.stations[i].busy
    ensures forall j :: 0 <= j < NUM_REGISTERS ==> st.rat[j] == NO_STATION
  {
    State([FREE, FREE, FREE, FREE, FREE],
          [NO_STATION, NO_STATION, NO_STATION, NO_STATION, NO_STATION, NO_STATION, NO_STATION, NO_STATION],
          registers, program)
  }
}
