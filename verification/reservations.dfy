/** LR.W and SC.W against the history of a run: section 8.2 of the RISC-V Unprivileged ISA 20191213. */
module Reservations {
  import opened MachineInts
  import opened FlatMemory
  import opened RiscvDecode
  import opened RiscvMachine
  import opened MachineRuns

  /** What one instruction means for reservations. */
  datatype Event = Reserve(address: u32) | Conditional(address: u32) | Stored(address: u32, width: nat) | Quiet

  /** The event of executing `op`. */
  function EventOf(regs: seq<u32>, op: Op): Event
    requires |regs| == 32
  {
    if op.LrW? then Reserve(Get(regs, op.rs1))
    else if op.ScW? then Conditional(Get(regs, op.rs1))
    else if op.Amo? then Stored(Get(regs, op.rs1), 4)
    else if StoreOf(op).Some? then
      var (rs1, rs2, imm, width) := StoreOf(op).value;
      Stored(Address(regs, rs1, imm), width)
    else Quiet
  }

  /** The event of the instruction that `m` executes next. */
  function NextEvent(m: Machine): Event
    requires m.Valid()
  {
    match InstructionAt(m.code, m.pc)
    case Ok((op, _)) => EventOf(m.regs, op)
    case Err(_) => Quiet
  }

  /** `width` bytes from `b` on have a byte in common with the word at `a`. */
  predicate Overlaps(b: int, width: nat, a: int) {
    b < a + 4 && a < b + width
  }

  predicate Disturbs(e: Event, a: u32) {
    e.Reserve? || e.Conditional? || (e.Stored? && Overlaps(e.address, e.width, a))
  }

  /** Event `j` is an LR.W of `a`, and nothing disturbed its reservation since. */
  ghost predicate ReservedBy(events: seq<Event>, j: nat, a: u32) {
    j < |events| && events[j] == Reserve(a) && forall i :: j < i < |events| ==> !Disturbs(events[i], a)
  }

  /** The latest LR.W or SC.W is an LR.W of `a`, and no later store or AMO overlapped that word. */
  ghost predicate ReservedIn(events: seq<Event>, a: u32) {
    exists j: nat :: ReservedBy(events, j, a)
  }

  /** What every state of the run is about to do. */
  ghost function Events(run: seq<Machine>): (events: seq<Event>)
    requires forall i :: 0 <= i < |run| ==> run[i].Valid()
    ensures |events| == |run| && forall i :: 0 <= i < |run| ==> events[i] == NextEvent(run[i])
  {
    seq(|run|, i requires 0 <= i < |run| => NextEvent(run[i]))
  }

  /** No event disturbs a reservation of `a`. */
  ghost predicate Undisturbed(events: seq<Event>, a: u32) {
    forall i :: 0 <= i < |events| ==> !Disturbs(events[i], a)
  }

  /** The same when `held` was reserved before the first event. */
  ghost predicate ReservedSince(held: Option<u32>, events: seq<Event>, a: u32) {
    ReservedIn(events, a) || (held == Some(a) && Undisturbed(events, a))
  }

  /** The history of the run before step `k` reserves `a`. */
  ghost predicate Reserved(run: seq<Machine>, k: nat, a: u32)
    requires IsRun(run) && k < |run|
  {
    RunIsValid(run);
    ReservedSince(run[0].reservation, Events(run)[..k], a)
  }

  /** The reservation after an event. */
  function After(reservation: Option<u32>, e: Event): Option<u32> {
    match e
    case Reserve(a) => Some(a)
    case Conditional(_) => None
    case Stored(b, width) => AfterStore(reservation, b, width)
    case Quiet => reservation
  }

  lemma StoreReserves(m: Machine, address: u32, width: nat, value: nat, size: int)
    requires m.Valid() && (width == 1 || width == 2 || width == 4) && ExecuteStore(m, address, width, value, size).Ok?
    ensures ExecuteStore(m, address, width, value, size).value.reservation == AfterStore(m.reservation, address, width)
  {
  }

  lemma LoadReserves(m: Machine, rd: Reg, address: u32, width: nat, signed: bool, size: int)
    requires m.Valid() && (width == 1 || width == 2 || width == 4)
    requires ExecuteLoad(m, rd, address, width, signed, size).Ok?
    ensures ExecuteLoad(m, rd, address, width, signed, size).value.reservation == m.reservation
  {
  }

  /** Loads and stores are neither atomic nor each other. */
  lemma KindsOfAccess(op: Op)
    ensures LoadOf(op).Some? ==> StoreOf(op).None? && !op.LrW? && !op.ScW? && !op.Amo?
    ensures StoreOf(op).Some? ==> !op.LrW? && !op.ScW? && !op.Amo?
  {
  }

  lemma EventOfAccess(regs: seq<u32>, op: Op)
    requires |regs| == 32
    ensures LoadOf(op).Some? ==> EventOf(regs, op) == Quiet
    ensures LoadOf(op).None? && StoreOf(op).Some? ==>
              EventOf(regs, op) == Stored(Address(regs, StoreOf(op).value.0, StoreOf(op).value.2), StoreOf(op).value.3)
  {
    KindsOfAccess(op);
  }

  lemma LoadOfReserves(m: Machine, op: Op, size: int)
    requires m.Valid() && LoadOf(op).Some? && ExecuteMemory(m, op, size).Ok?
    ensures ExecuteMemory(m, op, size).value.reservation == m.reservation
  {
    var (rd, rs1, imm, width, signed) := LoadOf(op).value;
    LoadReserves(m, rd, Address(m.regs, rs1, imm), width, signed, size);
  }

  lemma StoreOfReserves(m: Machine, op: Op, size: int)
    requires m.Valid() && LoadOf(op).None? && StoreOf(op).Some? && ExecuteMemory(m, op, size).Ok?
    ensures var (rs1, _, imm, width) := StoreOf(op).value;
            ExecuteMemory(m, op, size).value.reservation == AfterStore(m.reservation, Address(m.regs, rs1, imm), width)
  {
    var (rs1, rs2, imm, width) := StoreOf(op).value;
    StoreReserves(m, Address(m.regs, rs1, imm), width, Truncated(Get(m.regs, rs2), width), size);
  }

  lemma MemoryReserves(m: Machine, op: Op, size: int)
    requires m.Valid() && ExecuteMemory(m, op, size).Ok?
    ensures ExecuteMemory(m, op, size).value.reservation == After(m.reservation, EventOf(m.regs, op))
  {
    EventOfAccess(m.regs, op);
    if LoadOf(op).Some? {
      LoadOfReserves(m, op, size);
    } else if StoreOf(op).Some? {
      StoreOfReserves(m, op, size);
    } else {
      AtomicReserves(m, op, size);
    }
  }

  lemma AtomicReserves(m: Machine, op: Op, size: int)
    requires m.Valid() && ExecuteAtomic(m, op, size).Ok?
    ensures ExecuteAtomic(m, op, size).value.reservation == After(m.reservation, EventOf(m.regs, op))
  {
  }

  lemma QuietIfOfRegisters(regs: seq<u32>, op: Op)
    requires |regs| == 32 && OfRegisters(regs, op).Some?
    ensures EventOf(regs, op) == Quiet
  {
  }

  lemma QuietIfOfImmediate(regs: seq<u32>, pc: u32, op: Op)
    requires |regs| == 32 && OfImmediate(regs, pc, op).Some?
    ensures EventOf(regs, op) == Quiet
  {
  }

  lemma QuietIfControl(regs: seq<u32>, op: Op)
    requires |regs| == 32 && (Branch(regs, op).Some? || op.Jal? || op.Jalr? || op.Fence?)
    ensures EventOf(regs, op) == Quiet
  {
  }

  lemma ExecuteReserves(m: Machine, op: Op, size: int)
    requires m.Valid() && Execute(m, op, size).Ok?
    ensures Execute(m, op, size).value.reservation == After(m.reservation, EventOf(m.regs, op))
  {
    if OfRegisters(m.regs, op).Some? {
      QuietIfOfRegisters(m.regs, op);
    } else if OfImmediate(m.regs, m.pc, op).Some? {
      QuietIfOfImmediate(m.regs, m.pc, op);
    } else if Branch(m.regs, op).Some? {
      QuietIfControl(m.regs, op);
    } else {
      OtherReserves(m, op, size);
    }
  }

  lemma SystemReserves(m: Machine, op: Op, size: int)
    requires m.Valid() && ExecuteSystem(m, op, size).Ok?
    ensures ExecuteSystem(m, op, size).value.reservation == After(m.reservation, EventOf(m.regs, op))
  {
    if op.Fence? {
      QuietIfControl(m.regs, op);
    } else {
      MemoryReserves(m, op, size);
    }
  }

  lemma OtherReserves(m: Machine, op: Op, size: int)
    requires m.Valid() && ExecuteOther(m, op, size).Ok?
    ensures ExecuteOther(m, op, size).value.reservation == After(m.reservation, EventOf(m.regs, op))
  {
    if op.Jal? || op.Jalr? {
      QuietIfControl(m.regs, op);
    } else {
      SystemReserves(m, op, size);
    }
  }

  lemma StepReserves(m: Machine, next: Machine)
    requires m.pc % 2 == 0 && Next(m, next)
    ensures next.reservation == After(m.reservation, NextEvent(m))
  {
    FetchSeesInstruction(m.code, m.pc);
    var (op, size) := InstructionAt(m.code, m.pc).value;
    ExecuteReserves(m, op, size);
  }

  /** The interval test of the source is overlap of bytes. */
  lemma AfterStoreIsOverlap(r: u32, b: u32, width: nat)
    requires width > 0
    ensures AfterStore(Some(r), b, width) == if Overlaps(b, width, r) then None else Some(r)
  {
  }

  lemma HistoryStart(run: seq<Machine>, a: u32)
    requires IsRun(run)
    ensures run[0].reservation == Some(a) <==> Reserved(run, 0, a)
  {
    RunIsValid(run);
    assert Events(run)[..0] == [];
  }

  lemma EventWidth(m: Machine)
    requires m.Valid() && NextEvent(m).Stored?
    ensures NextEvent(m).width > 0
  {
  }

  lemma OneMoreEvent(held: Option<u32>, events: seq<Event>, k: nat, a: u32, before: Option<u32>, after: Option<u32>)
    requires 0 < k <= |events| && after == After(before, events[k - 1])
    requires events[k - 1].Stored? ==> events[k - 1].width > 0
    requires before == Some(a) <==> ReservedSince(held, events[..k - 1], a)
    ensures after == Some(a) <==> ReservedSince(held, events[..k], a)
  {
    assert events[..k] == events[..k - 1] + [events[k - 1]];
    HistoryStep(events[..k - 1], events[k - 1], a);
    UndisturbedStep(events[..k - 1], events[k - 1], a);
    AfterTracks(before, events[k - 1], a);
  }

  lemma UndisturbedStep(events: seq<Event>, e: Event, a: u32)
    ensures Undisturbed(events + [e], a) <==> Undisturbed(events, a) && !Disturbs(e, a)
  {
    var next := events + [e];
    assert next[|events|] == e;
    assert forall i :: 0 <= i < |events| ==> next[i] == events[i];
  }

  lemma HistoryNext(run: seq<Machine>, k: nat, a: u32)
    requires IsRun(run) && 0 < k < |run|
    requires run[k - 1].reservation == Some(a) <==> Reserved(run, k - 1, a)
    ensures run[k].reservation == Some(a) <==> Reserved(run, k, a)
  {
    RunIsValid(run);
    ReservationStep(run, k);
    if NextEvent(run[k - 1]).Stored? {
      EventWidth(run[k - 1]);
    }
    OneMoreEvent(run[0].reservation, Events(run), k, a, run[k - 1].reservation, run[k].reservation);
  }

  /** In every run the reservation is what the history says. */
  lemma {:induction false} ReservationIsHistory(run: seq<Machine>, k: nat, a: u32)
    requires IsRun(run) && k < |run|
    ensures run[k].reservation == Some(a) <==> Reserved(run, k, a)
  {
    if k == 0 {
      HistoryStart(run, a);
    } else {
      ReservationIsHistory(run, k - 1, a);
      HistoryNext(run, k, a);
    }
  }

  /** In a run that starts without a reservation, as that of a loaded program, only its own events count. */
  lemma LoadedRunReservation(run: seq<Machine>, k: nat, a: u32)
    requires IsRun(run) && k < |run| && run[0].reservation == None
    ensures forall i :: 0 <= i < |run| ==> run[i].Valid()
    ensures run[k].reservation == Some(a) <==> ReservedIn(Events(run)[..k], a)
  {
    RunIsValid(run);
    ReservationIsHistory(run, k, a);
  }

  lemma ReservationStep(run: seq<Machine>, k: nat)
    requires IsRun(run) && 0 < k < |run|
    ensures run[k - 1].Valid() && run[k].reservation == After(run[k - 1].reservation, NextEvent(run[k - 1]))
  {
    RunKeeps(run, k - 1);
    assert Next(run[k - 1], run[k]) by {
      LinkOf(run, k);
    }
    StepReserves(run[k - 1], run[k]);
  }

  lemma LinkOf(run: seq<Machine>, k: nat)
    requires IsRun(run) && 0 < k < |run|
    ensures Next(run[k - 1], run[k])
  {
    var next := (m, after) => Next(m, after);
    assert next(run[k - 1], run[k]);
  }

  lemma AfterTracks(reservation: Option<u32>, e: Event, a: u32)
    requires e.Stored? ==> e.width > 0
    ensures After(reservation, e) == Some(a) <==> e == Reserve(a) || (!Disturbs(e, a) && reservation == Some(a))
  {
    if e.Stored? && reservation.Some? {
      AfterStoreIsOverlap(reservation.value, e.address, e.width);
    }
  }

  lemma HistoryStep(events: seq<Event>, e: Event, a: u32)
    ensures ReservedIn(events + [e], a) <==> e == Reserve(a) || (!Disturbs(e, a) && ReservedIn(events, a))
  {
    var next := events + [e];
    if ReservedIn(next, a) {
      var j: nat :| ReservedBy(next, j, a);
      if j < |events| {
        assert next[|events|] == e;
        assert forall i :: 0 <= i < |events| ==> next[i] == events[i];
        assert ReservedBy(events, j, a);
      }
    }
    if e == Reserve(a) {
      assert ReservedBy(next, |events|, a);
    } else if !Disturbs(e, a) && ReservedIn(events, a) {
      var j: nat :| ReservedBy(events, j, a);
      assert ReservedBy(next, j, a);
    }
  }

  // ---------------------------------------------------------------------------------------
  // What SC.W does
  // ---------------------------------------------------------------------------------------

  /** What a register holds after it was assigned `value`. */
  function Held(rd: Reg, value: u32): u32 {
    if rd == 0 then 0 else value
  }

  lemma StoreIsRead(m: Machine, address: u32, value: u32)
    requires m.Valid() && Store(m, address, 4, value).Ok?
    ensures Load(Store(m, address, 4, value).value, address, 4) == Ok(value)
  {
    Pow256Widths();
    if m.stack.Contains(address) {
      ReadAfterWrite(m.stack, address, 4, value);
    } else {
      ReadAfterWrite(m.data, address, 4, value);
    }
  }

  /** A word can be stored: it is aligned and lies in the stack or in the data. */
  predicate Storable(m: Machine, address: u32)
    requires m.Valid()
  {
    if m.stack.Contains(address) then m.stack.Refusal(address, 4).None?
    else m.data.Contains(address) && m.data.Refusal(address, 4).None?
  }

  lemma ScStores(m: Machine, rd: Reg, address: u32, value: u32, size: int)
    requires m.Valid() && address % 4 == 0 && m.reservation == Some(address)
    ensures ExecuteSc(m, rd, address, value, size).Ok? <==> Storable(m, address)
    ensures ExecuteSc(m, rd, address, value, size).Ok? ==>
              var r := ExecuteSc(m, rd, address, value, size).value;
              && r.regs[Index(rd)] == 0 && Load(r, address, 4) == Ok(value)
              && (r.stack, r.data) == (Store(m, address, 4, value).value.stack, Store(m, address, 4, value).value.data)
  {
    if Store(m, address, 4, value).Ok? {
      StoreIsRead(m, address, value);
    }
  }

  lemma ScFails(m: Machine, rd: Reg, address: u32, value: u32, size: int)
    requires m.Valid() && address % 4 == 0 && m.reservation != Some(address)
    ensures ExecuteSc(m, rd, address, value, size).Ok?
    ensures var r := ExecuteSc(m, rd, address, value, size).value;
            r.regs[Index(rd)] == Held(rd, 1) && r.stack == m.stack && r.data == m.data && r.code == m.code
  {
  }

  /**
   In every run an SC.W of an aligned address stores its word and returns zero when the history reserves
   the address, unless the word cannot be stored, which is an error; otherwise it returns one and leaves
   memory as it is.
   */
  lemma ScFollowsHistory(run: seq<Machine>, k: nat, rd: Reg, rs1: Reg, rs2: Reg, size: int)
    requires IsRun(run) && k < |run| && |run[k].regs| == 32
    requires InstructionAt(run[0].code, run[k].pc) == Ok((ScW(rd, rs1, rs2), size))
    requires Get(run[k].regs, rs1) % 4 == 0
    ensures run[k].Valid()
    ensures var (m, a, value) := (run[k], Get(run[k].regs, rs1), Get(run[k].regs, rs2));
            if Reserved(run, k, a) then
              && (RunStep(m).Ok? <==> Storable(m, a))
              && (RunStep(m).Ok? ==>
                    && RunStep(m).value.regs[Index(rd)] == 0 && Load(RunStep(m).value, a, 4) == Ok(value)
                    && RunStep(m).value.stack == Store(m, a, 4, value).value.stack
                    && RunStep(m).value.data == Store(m, a, 4, value).value.data)
            else
              && RunStep(m).Ok? && RunStep(m).value.regs[Index(rd)] == Held(rd, 1)
              && RunStep(m).value.stack == m.stack && RunStep(m).value.data == m.data && RunStep(m).value.code == m.code
  {
    var (m, a, value) := (run[k], Get(run[k].regs, rs1), Get(run[k].regs, rs2));
    ReservationIsHistory(run, k, a);
    CodeIsFixed(run, k);
    ExecutesSc(m, rd, rs1, rs2, size);
    if Reserved(run, k, a) {
      ScStores(m, rd, a, value, size);
    } else {
      ScFails(m, rd, a, value, size);
    }
  }

  lemma ExecutesSc(m: Machine, rd: Reg, rs1: Reg, rs2: Reg, size: int)
    requires m.Valid()
    ensures Execute(m, ScW(rd, rs1, rs2), size) == ExecuteSc(m, rd, Get(m.regs, rs1), Get(m.regs, rs2), size)
  {
  }
}
