# Tomasulo scheduling engine in Dafny

This project models the scheduling engine of a cycle-by-cycle Tomasulo
simulator and proves properties of it. The engine has:

- five reservation stations: 0–2 serve Add/Sub, 3–4 serve Mul/Div;
- a register alias table (RAT) of eight entries, where -1 means "resolved";
- a register file of eight integers;
- an in-order instruction queue.

Each cycle has three stages:

1. **Issue** puts the head of the queue into the lowest free station of its class and renames its operands through the RAT.
2. **Broadcast and capture** lets at most one finished station complete, with Mul/Div first. Its result goes to the register renamed to it and to every busy station waiting on its tag.
3. **Dispatch** starts at most one ready station per class. It skips the stations issued or capturing in this cycle.

The model has two layers.

- **Values** (`tomasulo.dfy`, `stages.dfy`, `cycle.dfy`). The machine is a `State` value. Each stage is a function on it. Lemmas in `stage_properties.dfy` and `cycle.dfy` state what each stage does, and every stage function keeps the machine invariant `Inv`:
  - every free station is fully cleared;
  - every busy station holds an operation of its class, and both operand values once dispatched;
  - every RAT entry is -1 or names a busy station;
  - no two RAT entries name the same station.
- **Objects** (`engine.dfy`). This layer follows the program's own form:
  - `ReservationStation` objects whose fields are updated in place;
  - the RAT and register file as arrays;
  - the queue as a sequence field that is reassigned.

  Every method of `Machine` is proved to move `Abstract()` exactly as its specification function moves the value:
  - `GetFreeStation` matches `Stages.FreeStation`;
  - `Occupy`, `Issue`, `WriteBack`, `Retire`, `Complete`, `BroadcastAndCapture`, `DispatchClass` and `Dispatch` match the `Stages` function of the same name;
  - `Broadcast` matches `Stages.CaptureAll` and `Stages.CapturedUpTo`;
  - `Exclusions` matches `Cycle.Excluded`;
  - `Step` matches `Cycle.Step`;
  - `Run` matches `Cycle.Simulate`.

The model keeps the program's operand encoding. Each operand is a twin pair:
an optional value V and an optional producer tag Q. Only the half that
applies is written at issue. Capture writes V whenever Q matches the
broadcasting station. It does so even when a value is already present, and it
never clears Q. A stale tag can therefore pick up a later broadcast from a
reused station, and the model reproduces this as written. A station is ready
to dispatch when both values are present.

Division is `int(v1/v2)`, which truncates toward zero. Dafny's `/` is
Euclidean, so `Stages.TruncDiv` defines truncating division and proves its
remainder bounds.

A zero divisor makes the program fail at that point. The model returns it as
a `Fault` instead: the cycle stops after issue and before any broadcast
write, and `Run` reports the cycle and the fault.

## Model

| member | source | states |
|---|---|---|
| Tomasulo.FirstWhere | 15CS30006_P.py:59-62 | The lowest index in [lo, hi) satisfying the scan condition, with none below it satisfying it; None when no index in the range does. Every breaking scan of the engine is stated through it. |
| Tomasulo.Initial | 15CS30006_P.py:46-53 | The loaded machine has all five stations free, every RAT entry -1, the given register values and the program as its queue; it satisfies the invariant and has no dispatch marker. |
| Engine.ReservationStation.constructor | 15CS30006_P.py:13-21 | A new station has its number and every other field cleared (not busy, all optional fields empty). |
| Engine.ReservationStation.Reset | 15CS30006_P.py:24-31 | Reset leaves the station free with every field cleared. |
| Engine.Machine.constructor | 15CS30006_P.py:46-53 | The machine object is built in the abstract state `Initial(program, registers)`, with five distinct station objects numbered 0 to 4. |
| Engine.Machine.NewStations | 15CS30006_P.py:50-53 | Creates five fresh, distinct, free stations numbered by position. |
| Stages.FreeStation | 15CS30006_P.py:56-76 | The result is a free station inside the partition for the opcode ([0,3) for Add/Sub, [3,5) for Mul/Div), and every station of that partition below it is busy; None exactly when the whole partition is busy. |
| Engine.Machine.GetFreeStation | 15CS30006_P.py:56-76 | The scan returns `FreeStation` of the current stations: the lowest free index of the opcode's partition, or None when every station there is busy. |
| StageProperties.IssueStall | 15CS30006_P.py:79-87 | Issue returns None exactly when the queue is empty or the head's partition has no free station, and then the state is unchanged. |
| StageProperties.IssueEffect | 15CS30006_P.py:84-105 | On issue, the lowest free station of the head's class becomes busy with its opcode and undispatched. Each operand gets the register value when its RAT entry is -1 and the RAT tag otherwise, never both. The destination's RAT entry is the station. Every other station, RAT entry and register is unchanged, and the queue loses exactly its head. |
| Stages.Issue | 15CS30006_P.py:79-105 | Issue keeps the machine invariant, including that RAT entries name busy stations and no station is named twice. |
| Stages.IssueKeepsInv | 15CS30006_P.py:88-101 | Occupying a free station of the right class and renaming the destination register to it keeps the invariant. |
| Stages.Occupy | 15CS30006_P.py:88-99 | The station becomes busy with the instruction's opcode and keeps its dispatch marker. Per operand: with RAT entry -1 V gets the register value and Q is kept; otherwise Q gets the RAT's tag and V is kept. |
| Engine.Machine.Occupy | 15CS30006_P.py:88-99 | The station's fields are written as the program writes them: busy, the opcode, then per operand either V from the register file or Q from the RAT. |
| Engine.Machine.Issue | 15CS30006_P.py:79-105 | The method returns the station `Stages.Issue` picks and leaves the machine in the state `Stages.Issue` gives. |
| StageProperties.ComputeResultSpec | 15CS30006_P.py:108-119 | Add, Sub and Mul give the sum, difference and product. Div with a non-zero divisor gives the quotient truncated toward zero, with the remainder having the dividend's sign and being smaller than the divisor in magnitude. The result is undefined exactly for a division by zero. |
| Stages.ComputeResult | 15CS30006_P.py:108-119 | The result is undefined exactly for a division by zero, and a quotient leaves a remainder with the dividend's sign, smaller than the divisor in magnitude. |
| Stages.TruncDiv | 15CS30006_P.py:119 | The truncated quotient leaves a remainder with the dividend's sign that is smaller than the divisor in magnitude. |
| StageProperties.TruncDivUnique | 15CS30006_P.py:119 | Those remainder bounds determine the quotient uniquely. |
| StageProperties.TruncDivNegation | 15CS30006_P.py:119 | Truncating division commutes with negating the dividend, which floor division does not. |
| StageProperties.TruncDivNegateDivisor | 15CS30006_P.py:119 | Truncating division commutes with negating the divisor. |
| StageProperties.ZeroDividend | 15CS30006_P.py:119 | Zero divided by any non-zero divisor is zero. |
| StageProperties.TruncDivExamples | 15CS30006_P.py:119 | 7/2 = 3, -7/2 = -3, 7/-2 = -3, -7/-2 = 3. |
| Stages.CaptureAt | 15CS30006_P.py:125-133 | Capture keeps occupancy, opcode, dispatch marker and both tags. A station changes only if it is busy with a tag equal to the broadcaster, and a V field changes only to the result. |
| Stages.CaptureAll | 15CS30006_P.py:123-133 | Broadcasting keeps the number of stations, and every station that does not capture is unchanged. |
| Stages.CapturedUpTo | 15CS30006_P.py:127-135 | The captured list of the first n stations has at most n entries. |
| Engine.ReservationStation.Capture | 15CS30006_P.py:124-135 | A free station is untouched. A busy one takes the result into each operand whose tag is the broadcaster, and reports whether it took one. |
| Engine.Machine.Broadcast | 15CS30006_P.py:122-135 | All stations become `CaptureAll` of the old stations, and the captured list is extended by exactly the capturing stations in scan order. The RAT and register file are unchanged. |
| StageProperties.CaptureEffect | 15CS30006_P.py:122-135 | Capture changes only the V fields of busy stations whose tag matches, even if a value was present. Tags, occupancy, opcode and dispatch marker stay. The captured list holds exactly the busy matching stations, in increasing order. |
| Stages.CapturedUpToMembers | 15CS30006_P.py:127-135 | A station is in the captured list of the first n stations exactly when it is below n, busy, and has a tag equal to the broadcaster. |
| Stages.CapturedUpToSorted | 15CS30006_P.py:127-135 | The captured list is strictly increasing, so every station appears once. |
| Stages.RegisterOf | 15CS30006_P.py:153-157 | Returns the first register whose RAT entry names the station; no register before it names it, and None means none does. |
| Stages.WriteBack | 15CS30006_P.py:153-157 | Write-back keeps the lengths. A register or RAT entry changes only if its RAT entry named the station, and then the RAT entry becomes -1 and the register the result. |
| Stages.WriteBackEffect | 15CS30006_P.py:153-157 | With distinct RAT entries, the register renamed to the station gets the result and RAT -1. Every other register and RAT entry is unchanged, and with no such register nothing changes. |
| Engine.Machine.WriteBack | 15CS30006_P.py:153-157 | The register scan with `break` has the effect of `Stages.WriteBack` on the RAT and register-file arrays, and leaves the stations alone. |
| Stages.Complete | 15CS30006_P.py:149-162 | A completion that succeeds keeps the machine invariant. |
| Stages.Retire | 15CS30006_P.py:152-161 | After retirement the station is free with every field cleared, the queue is unchanged and RAT and register file keep their lengths. |
| Stages.CompleteKeepsInv | 15CS30006_P.py:152-161 | Writing back, broadcasting and resetting a busy station keeps the invariant. |
| StageProperties.CompleteEffect | 15CS30006_P.py:149-162 | A completion fails exactly on a zero divisor. Otherwise the station is reset, every other station is captured, and the register renamed to it takes the result and is resolved. Every other register and RAT entry and the queue are unchanged, and the captured list is the capturing stations. |
| Engine.Machine.Retire | 15CS30006_P.py:152-161 | Write-back, broadcast and reset give the stations `CaptureAll(...)[s := FREE]`, the RAT and register file of `Stages.WriteBack`, and the captured list. |
| Engine.Machine.Complete | 15CS30006_P.py:149-162 | The method matches `Stages.Complete`. It returns the fault and leaves the machine unchanged on a zero divisor; otherwise it gives the same state and captured list. |
| Stages.Eligible | 15CS30006_P.py:145-149 | An eligible station is dispatched, at least two cycles before the current one (the shortest latency), so no station completes in the cycle it is dispatched in or the next. |
| Stages.FirstEligible | 15CS30006_P.py:143-149 | Returns the lowest station in the range that is busy, dispatched and past its latency of 2/2/10/40 cycles; no station below it in the range is. |
| Stages.Winner | 15CS30006_P.py:139-188 | The completing station is eligible: the lowest eligible Mul/Div station, or, only when no Mul/Div station is eligible, the lowest eligible Add/Sub station. None means no station is eligible. |
| StageProperties.CompletionArbitration | 15CS30006_P.py:139-188 | With no eligible station nothing changes. Any station whose occupancy changes was busy and eligible, and had no eligible Mul/Div station below it; an Add/Sub one also had no eligible Mul/Div station and no eligible Add/Sub station below it. |
| StageProperties.SingleBroadcaster | 15CS30006_P.py:139-188 | At most one station goes from busy to free in the broadcast stage. |
| StageProperties.BroadcastFrame | 15CS30006_P.py:139-188 | The broadcast keeps the queue and every surviving dispatch marker. A busy station that is not eligible stays busy with the same marker. |
| Stages.BroadcastAndCapture | 15CS30006_P.py:139-188 | A broadcast stage that succeeds keeps the machine invariant. |
| Engine.Machine.BroadcastAndCapture | 15CS30006_P.py:139-188 | The two breaking scans (Mul/Div first, then Add/Sub) match `Stages.BroadcastAndCapture`: the same fault, or the same new state and captured list. |
| Stages.Ready | 15CS30006_P.py:194-200 | A station ready to dispatch is not eligible to complete in any cycle. |
| Stages.FirstReady | 15CS30006_P.py:193-203 | Returns the lowest station in the range that is not excluded, busy, undispatched and has both values; no station below it in the range is such. |
| Stages.DispatchClass | 15CS30006_P.py:193-203 | Dispatching one class keeps the length and leaves every station outside the class unchanged. A station that changes was undispatched and only gets the marker `cycle`. |
| StageProperties.DispatchClassEffect | 15CS30006_P.py:193-203 | Dispatching one class marks only `FirstReady` of that range with the current cycle and changes nothing else. |
| StageProperties.FirstReadyFrame | 15CS30006_P.py:205-215 | The scan of one class depends only on that class's stations, so the Add/Sub dispatch does not affect the Mul/Div choice. |
| StageProperties.DispatchEffect | 15CS30006_P.py:191-215 | For each class, the lowest ready station that is not excluded gets the marker `cycle`, and every other station is unchanged. |
| StageProperties.DispatchAtMostOnePerClass | 15CS30006_P.py:191-215 | Two different stations of the same class are never both changed by one dispatch. |
| StageProperties.DispatchSkipsExcluded | 15CS30006_P.py:194-195 | A station in `not_allowed` is unchanged by dispatch. |
| StageProperties.DispatchMarksCurrentCycle | 15CS30006_P.py:201 | With all markers before `cycle`, after dispatch all markers are at most `cycle`. |
| Stages.Dispatch | 15CS30006_P.py:191-215 | Dispatch keeps the length, every station's occupancy and every station's invariant. |
| Engine.Machine.DispatchClass | 15CS30006_P.py:193-203 | The breaking scan of one class matches `Stages.DispatchClass`. |
| Engine.Machine.Dispatch | 15CS30006_P.py:191-215 | The two class scans match `Stages.Dispatch` and leave the RAT, register file and queue unchanged. |
| Cycle.Excluded | 15CS30006_P.py:245-248 | A station is barred from dispatch exactly when it was issued this cycle or is in the captured list. |
| Engine.Machine.Exclusions | 15CS30006_P.py:245-248 | The list of stations barred from dispatch is the issued station, if any, followed by the captured list. |
| Cycle.Step | 15CS30006_P.py:241-249 | One cycle (issue, broadcast and capture, then dispatch with the exclusions) keeps the machine invariant. |
| Cycle.Simulate | 15CS30006_P.py:241-249 | Every state reached after n cycles satisfies the invariant, and a reported fault happened in a cycle before n. |
| Engine.Machine.Step | 15CS30006_P.py:242-249 | One cycle of the objects matches `Cycle.Step`: the same state, issued station, captured list and fault. |
| Engine.Machine.Run | 15CS30006_P.py:241-249 | Running `totalCycles` cycles gives `Cycle.Simulate`'s state. It reports no fault exactly when every cycle finished, and otherwise reports the cycle and fault of the first division by zero. |
| Cycle.SimulateZero | 15CS30006_P.py:241 | Zero cycles leave the loaded machine as it is. |
| Cycle.FaultIsFinal | 15CS30006_P.py:241-249 | Once a run has faulted, running longer reports the same fault and state. |
| Cycle.IssueMarkers | 15CS30006_P.py:79-105 | Issue changes no dispatch marker except that of the issued station, which is busy and undispatched, and it leaves the queue a suffix of the old one. |
| Cycle.StepIssued | 15CS30006_P.py:243-249 | The station issued in a cycle ends that cycle busy and undispatched. |
| Cycle.StepExcluded | 15CS30006_P.py:245-249 | With all markers before the cycle, no station issued in the cycle or in its captured list is marked dispatched in that cycle. |
| Cycle.StepDispatchedBefore | 15CS30006_P.py:241-249 | With all markers before cycle c, after cycle c all markers are before c + 1. |
| Cycle.StepFreesAtMostOne | 15CS30006_P.py:241-249 | At most one station goes from busy to free in one cycle. |
| Cycle.SimulateStepDispatchedBefore | 15CS30006_P.py:241-249 | One more cycle of a run keeps every dispatch marker before the number of cycles run. |
| Cycle.SimulateDispatchedBefore | 15CS30006_P.py:241-249 | After n cycles from a machine without markers, every dispatch marker names a cycle before n. |
| Cycle.NoDispatchOnIssueOrCapture | 15CS30006_P.py:245-249 | In every cycle of a run from the loaded machine, a station issued in the cycle or capturing in it is not dispatched in it. |
| Cycle.StepQueue | 15CS30006_P.py:104 | One cycle leaves the queue as it was or without exactly its head; either way it is a suffix of the old queue. |
| Cycle.SimulateQueue | 15CS30006_P.py:104 | Each cycle of a run leaves the queue a suffix of the queue before it. |
| Cycle.QueueIsSuffix | 15CS30006_P.py:104 | After any number of cycles the queue is a suffix of the loaded program, so instructions leave in program order. |

## Left out

- Reading `input.txt` (lines 218–237) is not modelled. The program and the register values are inputs of `Initial` and of the `Machine` constructor.
- The queue-limit warning at line 233 only prints; the instruction is appended anyway, so the constant `INSTRUCTION_QUEUE_LIMIT` has no effect on the model.
- Printing is not modelled: the trace lines (103, 151, 176, 202, 214, 242, 250) and the final report (252–273).
- `OPCODE_TO_STRING` and `Instruction.__str__` format text only and are left out.
- Values are unbounded integers, so NumPy's int64 storage and wrap-around are not modelled.
- The float intermediate of `int(v1/v2)` is not modelled either. Once the dividend or the quotient exceeds 2^53 in magnitude, the float result can differ from the exact truncated quotient: (2^54 − 1)/2 gives 2^53. The model computes the exact truncated quotient.
- Instructions are assumed valid: the `Opcode` and `Reg` types limit opcodes to 0..3 and register numbers to 0..7. The program parses any integer (line 231) and never checks it; an opcode of 4 or more issues to a Mul/Div station and later fails at `OP_CYLES[opcode]` (line 149), and a negative register number indexes NumPy arrays from the end.
- Engine.Machine.Complete: the program raises an exception on a zero divisor and stops. The model returns a `DivideByZero` fault naming the station and the dividend, and the run stops. No state after the fault is modelled.
- Python `TypeError` paths are not modelled: arithmetic on a `None` operand, or `station.dispatched + ...` on `None`. The invariant rules them out, since only dispatched stations compute and dispatch needs both values.
- Engine.Machine.GetFreeStation merges the two copies of the scan in `_get_free_stn` into one loop over the partition bounds. The stations it examines and the result are the same.
- Engine.ReservationStation: `busy` is a `bool` where the program stores 0 or 1.
- Engine.Machine.Run: a run is a fixed number of cycles given as a parameter. `TOT_CYCLES` comes from the input file.
