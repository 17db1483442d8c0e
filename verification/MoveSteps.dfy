/** Whole instructions that move data, behind any prefixes: which bytes and registers go where. */
module MoveSteps {
  import opened Words
  import opened I386
  import opened Machine
  import opened Step
  import opened RunInvariants
  import opened Disassembler
  import opened Instructions
  import opened FlagLaws
  import opened Places
  import opened Addressing
  import opened Texts

  // ----- From decoded operands to places -----

  /** An operand's value in the text's own terms. */
  function Amount(s: State, x: Source): int
    requires x.Held? ==> IsPlace(s.mem, x.p)
  {
    match x
    case Held(p) => Contents(s, p)
    case Value(v) => v
    case Segment(r) => if 0 <= r < 6 then s.segs[r].selector else 0
    case _ => 0
  }

  lemma ReadsSource(s: State, e: State, d: Decoded, x: Source)
    requires Denotes(s, e, d, x) && (x.Held? || x.Value?) && e.regs == s.regs && e.mem == s.mem
    ensures ReadSource(e, d) == Ok(Amount(s, x)) && Wrap32(Amount(s, x)) == Amount(s, x)
  {
    hide PlaceOf, Contents, Location;
    if x.Held? {
      ReadsPlace(e, d);
      Below(e, d);
      SamePlaces(s, e, x.p, 0);
    }
    WrapSmall(Amount(s, x));
  }

  lemma RunMove(s: State, i: Instruction, env: Env, p: Place, x: Source)
    requires i.inst.opType.OpMov? && i.s.regs == s.regs && i.s.mem == s.mem
    requires Denotes(s, i.s, i.dst, Held(p)) && Denotes(s, i.s, i.src1, x) && (x.Held? || x.Value?)
    ensures Execute(i, env) == Ok(Assigned(i.s, p, Amount(s, x)))
  {
    hide PlaceOf, Assigned, ReadSource, WriteDest, Amount, Location;
    ReadsSource(s, i.s, i.src1, x);
    WritesPlace(i.s, i.dst, Amount(s, x));
  }

  /** Any move of the table, with or without a ModR/M byte. */
  lemma MoveText(s: State, ps: seq<u8>, rest: seq<u8>, reg: RegIndex, m: nat, inst: Op, i: Instruction, env: Env,
      p: Place, x: Source)
    requires NothingPending(s) && HasOperands(s, ps, rest, m, inst) && DecodedAs(s, ps, rest, reg, m, inst, i)
    requires inst.opType.OpMov? && TextOperand(s, ps, rest, reg, m, inst.dest) == Held(p)
    requires TextOperand(s, ps, rest, reg, m, inst.src1) == x && (x.Held? || x.Value?)
    ensures IsPlace(s.mem, p) && (x.Held? ==> IsPlace(s.mem, x.p))
    ensures Finished(s, Execute(i, env)) ==
            Ok(Assigned(Behind(s, |ps| + 1 + TextLength(s, ps, m, inst)), p, Amount(s, x)))
  {
    hide TextOperand, Execute, Assigned, Amount, Behind, Finished, Prefixed, TextLength, PlaceOf;
    ExecutingKeeps(s, ps, TextLength(s, ps, m, inst));
    RunMove(s, i, env, p, x);
    AssignmentLands(s, ps, TextLength(s, ps, m, inst), p, Amount(s, x));
  }

  lemma ExecutingKeeps(s: State, ps: seq<u8>, n: nat)
    ensures var e := Executing(s, ps, n);
            e.regs == s.regs && e.mem == s.mem && e.eflags == s.eflags && e.segs == s.segs && e.cr == s.cr
  {
  }

  // ----- MOV -----

  function MovEntry(opcode: u8): Op
  {
    var size := ByteOrWord(opcode);
    if opcode < 0x8A then Op(OpMov, 0, USE_MODRM, Rm(size), I386.RegField(size), NONE)
    else Op(OpMov, 0, USE_MODRM, I386.RegField(size), Rm(size), NONE)
  }

  lemma MovRows(opcode: u8, reg: RegIndex)
    requires 0x88 <= opcode <= 0x8B
    ensures InstructionTable(opcode) == MovEntry(opcode) && PlainOpcode(opcode)
    ensures Fixup(MovEntry(opcode), reg) == Ok(MovEntry(opcode))
  {
  }

  /** MOV between a register and a ModR/M operand, 88 to 8B: the bytes at the place the text names, in the segment of
      the last prefix or else the address's own, are moved; nothing else changes but EIP. */
  lemma StepMov(s: State, ps: seq<u8>, opcode: u8, rest: seq<u8>, env: Env)
    requires At(s, ps, opcode, rest) && 0x88 <= opcode <= 0x8B && HasRm(s, ps, rest)
    ensures var n := OperandBytes(s, ps, ByteOrWord(opcode));
            var (rm, reg) := (RmPlace(s, ps, rest, n), RegPlace(rest, n));
            Step.Step(s, env) ==
              if !RmDecodes(s, ps, rest) then Halted(HostUndefined)
              else
                var b := Behind(s, |ps| + 1 + RmBytes(s, ps, rest));
                Ok(if opcode < 0x8A then Assigned(b, rm, Contents(s, reg)) else Assigned(b, reg, Contents(s, rm)))
  {
    hide CodeIs, Step.Step, Execute, InstructionTable, Behind, Finished, Fixup, PlainOpcode;
    hide RmDecodes, Contents, Assigned, RmBytes, RmPlace, TextAddress, DecodedAs, OperandBytes;
    var inst := MovEntry(opcode);
    MovRows(opcode, RegOf(rest[0]));
    var i := StepModrmText(s, ps, opcode, rest, env, inst);
    if RmDecodes(s, ps, rest) {
      var n := OperandBytes(s, ps, ByteOrWord(opcode));
      var (rm, reg) := (RmPlace(s, ps, rest, n), RegPlace(rest, n));
      var (p, q) := if opcode < 0x8A then (rm, reg) else (reg, rm);
      MoveText(s, ps, rest, RegOf(rest[0]), RmBytes(s, ps, rest), inst, i, env, p, Held(q));
    }
  }

  /** MOV of an immediate to a register, B0 to BF. */
  lemma StepMovImmediate(s: State, ps: seq<u8>, opcode: u8, rest: seq<u8>, env: Env)
    requires At(s, ps, opcode, rest) && 0xB0 <= opcode <= 0xBF
    requires OperandBytes(s, ps, if opcode < 0xB8 then Sz8 else Sz1632) <= |rest|
    ensures var n := OperandBytes(s, ps, if opcode < 0xB8 then Sz8 else Sz1632);
            Step.Step(s, env) ==
              Ok(Assigned(Behind(s, |ps| + 1 + n), Register(opcode % 8, n), Number(rest[..n])))
  {
    hide CodeIs, Step.Step, Execute, InstructionTable, Behind, Finished, Fixup, PlainOpcode;
    hide Assigned, DecodedAs, Number;
    var size := if opcode < 0xB8 then Sz8 else Sz1632;
    var inst := Op(OpMov, 0, 0, ConstReg(size, opcode % 8), Imm(size), NONE);
    ImmediateRow(opcode);
    var i := StepPlainText(s, ps, opcode, rest, env, inst);
    var n := OperandBytes(s, ps, size);
    assert rest[0..0 + n] == rest[..n];
    MoveText(s, ps, rest, 0, 0, inst, i, env, Register(opcode % 8, n), Value(Number(rest[..n])));
  }

  lemma ImmediateRow(opcode: u8)
    requires 0xB0 <= opcode <= 0xBF
    ensures var size := if opcode < 0xB8 then Sz8 else Sz1632;
            var inst := Op(OpMov, 0, 0, ConstReg(size, opcode % 8), Imm(size), NONE);
            InstructionTable(opcode) == inst && PlainOpcode(opcode) && Fixup(inst, 0) == Ok(inst)
  {
  }

  /** MOV of an immediate to a ModR/M operand, C6 and C7. */
  lemma StepMovImmediateRm(s: State, ps: seq<u8>, opcode: u8, rest: seq<u8>, env: Env)
    requires At(s, ps, opcode, rest) && 0xC6 <= opcode <= 0xC7 && HasRm(s, ps, rest)
    requires RmBytes(s, ps, rest) + OperandBytes(s, ps, ByteOrWord(opcode)) <= |rest|
    ensures var (m, n) := (RmBytes(s, ps, rest), OperandBytes(s, ps, ByteOrWord(opcode)));
            Step.Step(s, env) ==
              if !RmDecodes(s, ps, rest) then Halted(HostUndefined)
              else Ok(Assigned(Behind(s, |ps| + 1 + m + n), RmPlace(s, ps, rest, n), Number(rest[m..m + n])))
  {
    hide CodeIs, Step.Step, Execute, InstructionTable, Behind, Finished, Fixup, PlainOpcode;
    hide RmDecodes, Assigned, RmBytes, RmPlace, TextAddress, DecodedAs, Number;
    var inst := Op(OpMov, 0, USE_MODRM, Rm(ByteOrWord(opcode)), Imm(ByteOrWord(opcode)), NONE);
    ImmediateRmRow(opcode, RegOf(rest[0]));
    var i := StepModrmText(s, ps, opcode, rest, env, inst);
    if RmDecodes(s, ps, rest) {
      var (m, n) := (RmBytes(s, ps, rest), OperandBytes(s, ps, ByteOrWord(opcode)));
      MoveText(s, ps, rest, RegOf(rest[0]), m, inst, i, env, RmPlace(s, ps, rest, n), Value(Number(rest[m..m + n])));
    }
  }

  lemma ImmediateRmRow(opcode: u8, reg: RegIndex)
    requires 0xC6 <= opcode <= 0xC7
    ensures var inst := Op(OpMov, 0, USE_MODRM, Rm(ByteOrWord(opcode)), Imm(ByteOrWord(opcode)), NONE);
            InstructionTable(opcode) == inst && PlainOpcode(opcode) && Fixup(inst, reg) == Ok(inst)
  {
  }

  /** MOV between the accumulator and an address in the text, A0 to A3: at the last prefix's segment, or DS. */
  lemma StepMovOffset(s: State, ps: seq<u8>, opcode: u8, rest: seq<u8>, env: Env)
    requires At(s, ps, opcode, rest) && 0xA0 <= opcode <= 0xA3 && (if WideAddress(s, ps) then 4 else 2) <= |rest|
    ensures var (n, k) := (OperandBytes(s, ps, ByteOrWord(opcode)), if WideAddress(s, ps) then 4 else 2);
            var (b, cell) := (Behind(s, |ps| + 1 + k), Cell(s, LastSegment(ps, DS), Number(rest[..k]), n));
            Step.Step(s, env) ==
              Ok(if opcode < 0xA2 then Assigned(b, Register(EAX, n), Contents(s, cell))
                 else Assigned(b, cell, Contents(s, Register(EAX, n))))
  {
    hide CodeIs, Step.Step, Execute, InstructionTable, Behind, Finished, Fixup, PlainOpcode;
    hide Assigned, DecodedAs, Number, Contents, LastSegment;
    var inst := OffsetEntry(opcode);
    OffsetRow(opcode);
    var i := StepPlainText(s, ps, opcode, rest, env, inst);
    var (n, k) := (OperandBytes(s, ps, ByteOrWord(opcode)), if WideAddress(s, ps) then 4 else 2);
    assert rest[0..0 + k] == rest[..k];
    var (cell, eax) := (Cell(s, LastSegment(ps, DS), Number(rest[..k]), n), Register(EAX, n));
    var (p, q) := if opcode < 0xA2 then (eax, cell) else (cell, eax);
    MoveText(s, ps, rest, 0, 0, inst, i, env, p, Held(q));
  }

  function OffsetEntry(opcode: u8): Op
  {
    var size := ByteOrWord(opcode);
    if opcode < 0xA2 then Op(OpMov, 0, 0, ConstReg(size, EAX), Offset(size), NONE)
    else Op(OpMov, 0, 0, Offset(size), ConstReg(size, EAX), NONE)
  }

  lemma OffsetRow(opcode: u8)
    requires 0xA0 <= opcode <= 0xA3
    ensures InstructionTable(opcode) == OffsetEntry(opcode) && PlainOpcode(opcode)
    ensures Fixup(OffsetEntry(opcode), 0) == Ok(OffsetEntry(opcode))
  {
  }

  // ----- XCHG -----

  lemma RunExchange(s: State, i: Instruction, env: Env, p: Place, q: Place)
    requires i.inst.opType.OpXchg? && i.s.regs == s.regs && i.s.mem == s.mem
    requires Denotes(s, i.s, i.src1, Held(p)) && Denotes(s, i.s, i.src2, Held(q))
    ensures Execute(i, env) == Ok(Assigned(Assigned(i.s, p, Contents(s, q)), q, Contents(s, p)))
  {
    hide PlaceOf, Assigned, ReadSource, WriteDest, Contents, Location;
    ReadsSource(s, i.s, i.src1, Held(p));
    ReadsSource(s, i.s, i.src2, Held(q));
    WritesPlace(i.s, i.src1, Contents(s, q));
    var t := Assigned(i.s, p, Contents(s, q));
    KeepsPlaces(i.s, p, Contents(s, q), i.src2);
    WritesPlace(t, i.src2, Contents(s, p));
  }

  lemma KeepsPlaces(s: State, p: Place, v: int, d: Decoded)
    requires IsPlace(s.mem, p) && Location(d)
    ensures PlaceOf(Assigned(s, p, v), d) == PlaceOf(s, d)
  {
    hide Digits;
  }

  /** Two assignments in the executing state. */
  lemma TwoLand(s: State, ps: seq<u8>, n: nat, p: Place, v: int, q: Place, w: int)
    requires NothingPending(s) && IsPlace(s.mem, p) && IsPlace(s.mem, q)
    ensures Finished(s, Ok(Assigned(Assigned(Executing(s, ps, n), p, v), q, w))) ==
            Ok(Assigned(Assigned(Behind(s, |ps| + 1 + n), p, v), q, w))
  {
    hide Digits, Wrap32, OverridesSegment, LastSegment, Counted;
    var (e, b) := (Executing(s, ps, n), Behind(s, |ps| + 1 + n));
    AssignmentLands(s, ps, n, p, v);
    SamePlaces(e, b, p, v);
    SamePlaces(Assigned(e, p, v), Assigned(b, p, v), q, w);
    WrapTwice(s.eip + |ps| + 1, n);
    assert s.eip + |ps| + 1 + n == s.eip + (|ps| + 1 + n);
    hide Assigned, Prefixed;
    Lands(s, ps, n, Assigned(Assigned(e, p, v), q, w));
  }

  /** XCHG, 86, 87 and 90 to 97: each place receives what the other held. */
  lemma StepExchange(s: State, ps: seq<u8>, opcode: u8, rest: seq<u8>, env: Env)
    requires At(s, ps, opcode, rest) && 0x86 <= opcode <= 0x87 && HasRm(s, ps, rest)
    ensures var n := OperandBytes(s, ps, ByteOrWord(opcode));
            var (rm, reg) := (RmPlace(s, ps, rest, n), RegPlace(rest, n));
            Step.Step(s, env) ==
              if !RmDecodes(s, ps, rest) then Halted(HostUndefined)
              else
                var b := Behind(s, |ps| + 1 + RmBytes(s, ps, rest));
                Ok(Assigned(Assigned(b, rm, Contents(s, reg)), reg, Contents(s, rm)))
  {
    hide CodeIs, Step.Step, Execute, InstructionTable, Behind, Finished, Fixup, PlainOpcode, Executing, PlaceOf;
    hide RmDecodes, Contents, Assigned, RmBytes, RmPlace, TextAddress, OperandBytes;
    var inst := Op(OpXchg, 0, USE_MODRM, NONE, Rm(ByteOrWord(opcode)), I386.RegField(ByteOrWord(opcode)));
    ExchangeRow(opcode, RegOf(rest[0]));
    var i := StepModrmText(s, ps, opcode, rest, env, inst);
    if RmDecodes(s, ps, rest) {
      var (n, m) := (OperandBytes(s, ps, ByteOrWord(opcode)), RmBytes(s, ps, rest));
      var (rm, reg) := (RmPlace(s, ps, rest, n), RegPlace(rest, n));
      ExecutingKeeps(s, ps, m);
      RunExchange(s, i, env, rm, reg);
      TwoLand(s, ps, m, rm, Contents(s, reg), reg, Contents(s, rm));
    }
  }

  lemma ExchangeRow(opcode: u8, reg: RegIndex)
    requires 0x86 <= opcode <= 0x87
    ensures var inst := Op(OpXchg, 0, USE_MODRM, NONE, Rm(ByteOrWord(opcode)), I386.RegField(ByteOrWord(opcode)));
            InstructionTable(opcode) == inst && PlainOpcode(opcode) && Fixup(inst, reg) == Ok(inst)
  {
  }

  lemma StepExchangeAccumulator(s: State, ps: seq<u8>, opcode: u8, rest: seq<u8>, env: Env)
    requires At(s, ps, opcode, rest) && 0x90 <= opcode <= 0x97
    ensures var n := OperandBytes(s, ps, Sz1632);
            var (eax, reg) := (Register(EAX, n), Register(opcode % 8, n));
            Step.Step(s, env) ==
              Ok(Assigned(Assigned(Behind(s, |ps| + 1), eax, Contents(s, reg)), reg, Contents(s, eax)))
  {
    hide CodeIs, Step.Step, Execute, InstructionTable, Behind, Finished, Fixup, PlainOpcode, Executing, PlaceOf;
    hide Contents, Assigned;
    var inst := Op(OpXchg, 0, 0, NONE, ConstReg(Sz1632, EAX), ConstReg(Sz1632, opcode % 8));
    AccumulatorRow(opcode);
    var i := StepPlainText(s, ps, opcode, rest, env, inst);
    var n := OperandBytes(s, ps, Sz1632);
    var (eax, reg) := (Register(EAX, n), Register(opcode % 8, n));
    ExecutingKeeps(s, ps, 0);
    RunExchange(s, i, env, eax, reg);
    TwoLand(s, ps, 0, eax, Contents(s, reg), reg, Contents(s, eax));
  }

  lemma AccumulatorRow(opcode: u8)
    requires 0x90 <= opcode <= 0x97
    ensures var inst := Op(OpXchg, 0, 0, NONE, ConstReg(Sz1632, EAX), ConstReg(Sz1632, opcode % 8));
            InstructionTable(opcode) == inst && PlainOpcode(opcode) && Fixup(inst, 0) == Ok(inst)
  {
  }

  // ----- LEA -----

  /** LEA, 8D, stores the offset itself, whatever the segment; with a register it spins. */
  lemma StepLea(s: State, ps: seq<u8>, rest: seq<u8>, env: Env)
    requires At(s, ps, 0x8D, rest) && HasRm(s, ps, rest)
    ensures var n := OperandBytes(s, ps, Sz1632);
            Step.Step(s, env) ==
              if ModField(rest[0]) == 3 then Halted(Spin)
              else if !RmDecodes(s, ps, rest) then Halted(HostUndefined)
              else Ok(Assigned(Behind(s, |ps| + 1 + RmBytes(s, ps, rest)), RegPlace(rest, n),
                               OffsetOf(s.regs, TextAddress(s, ps, rest), rest[1..], WideAddress(s, ps))))
  {
    hide CodeIs, Step.Step, Execute, InstructionTable, Behind, Fixup, PlainOpcode, Prefixed, DecodeRm;
    hide Decodes, Assigned, RmBytes, RmPlace, TextAddress, DecodeOperands, OffsetOf, OperandBytes, RmAt;
    LeaRow(RegOf(rest[0]));
    StepAtText(s, ps, 0x8D, rest, env);
    var rm, t := RmAtText(s, ps, rest);
    BareWithModrm(Prefixed(s, ps), 0x8D, rest[0], env, LEA);
    if RmDecodes(s, ps, rest) { LeaExecutes(s, ps, rest, rm, t, env); }
  }

  const LEA := Op(OpLea, 0, USE_MODRM, I386.RegField(Sz1632), Operand(KMemModrm, Sz1632, 0), NONE)

  lemma LeaRow(reg: RegIndex)
    ensures InstructionTable(0x8D) == LEA && PlainOpcode(0x8D) && Fixup(LEA, reg) == Ok(LEA)
  {
  }

  lemma LeaExecutes(s: State, ps: seq<u8>, rest: seq<u8>, rm: Decoded, t: State, env: Env)
    requires NothingPending(s) && HasRm(s, ps, rest) && RmAt(s, ps, rest, rm, t)
        && OpSize32(Prefixed(s, ps)) == Wide(s, ps)
    ensures var r := DecodeOperands(t, rm, RegOf(rest[0]), LEA);
            if ModField(rest[0]) == 3 then r == Halted(Spin)
            else
              r.Ok? && Finished(s, Execute(r.value, env)) ==
                Ok(Assigned(Behind(s, |ps| + 1 + RmBytes(s, ps, rest)), RegPlace(rest, OperandBytes(s, ps, Sz1632)),
                            OffsetOf(s.regs, TextAddress(s, ps, rest), rest[1..], WideAddress(s, ps))))
  {
    hide CodeIs, RmBytes, TextAddress, OffsetOf, Wrap32, OverridesSegment, LastSegment, Counted, Behind, Assigned,
      Finished;
    hide RmPlace, PlaceOf, OperandBytes;
    if ModField(rest[0]) < 3 {
      var (m, reg) := (RmBytes(s, ps, rest), RegOf(rest[0]));
      FixedDenotes(s, ps, rest, rm, t, m, reg, I386.RegField(Sz1632));
      var i := DecodeOperands(t, rm, reg, LEA).value;
      assert i.s == Executing(s, ps, m);
      WritesPlace(i.s, i.dst, i.src1.id);
      AssignmentLands(s, ps, m, RegPlace(rest, OperandBytes(s, ps, Sz1632)), i.src1.id);
    }
  }

  // ----- XLAT, SAHF and LAHF -----

  /** An instruction without operands is executed behind its opcode. */
  lemma StepPlain(s: State, ps: seq<u8>, opcode: u8, rest: seq<u8>, env: Env, inst: Op) returns (i: Instruction)
    requires At(s, ps, opcode, rest) && PlainOpcode(opcode) && InstructionTable(opcode) == inst && !UsesModrm(inst)
    requires inst.dest == inst.src1 == inst.src2 == NONE && Fixup(inst, 0) == Ok(inst)
    ensures Step.Step(s, env) == Finished(s, Execute(i, env)) && i.inst == inst && i.s == Executing(s, ps, 0)
    ensures i.s.sgmtOverride == LastSegment(ps, DS) && OpSize32(i.s) == Wide(s, ps)
  {
    hide CodeIs, Step.Step, Execute, Finished, Fixup, PlainOpcode, LastSegment, InstructionTable, Executing, Denotes;
    i := StepPlainText(s, ps, opcode, rest, env, inst);
    ExecutingControl(s, ps, 0);
  }

  lemma ExecutingControl(s: State, ps: seq<u8>, n: nat)
    requires NothingPending(s)
    ensures Executing(s, ps, n).sgmtOverride == LastSegment(ps, DS) && OpSize32(Executing(s, ps, n)) == Wide(s, ps)
  {
    hide LastSegment, OverridesSegment, Counted, Wrap32;
  }

  /** XLAT, D7: AL becomes the byte at EBX + AL, in the last prefix's segment, or DS. */
  lemma StepXlat(s: State, ps: seq<u8>, rest: seq<u8>, env: Env)
    requires At(s, ps, 0xD7, rest)
    ensures var cell := Cell(s, LastSegment(ps, DS), s.regs[EBX] + Contents(s, Register(EAX, 1)), 1);
            Step.Step(s, env) == Ok(Assigned(Behind(s, |ps| + 1), Register(EAX, 1), Contents(s, cell)))
  {
    hide CodeIs, Step.Step, Execute, InstructionTable, Behind, Finished, Fixup, PlainOpcode, Executing, LastSegment;
    hide Contents, Assigned, DoXlat;
    NoOperandRows();
    var i := StepPlain(s, ps, 0xD7, rest, env, Plain(OpXlat, 0));
    ExecutingKeeps(s, ps, 0);
    ExecutesAlone(i, env);
    XlatLoads(i.s, s, LastSegment(ps, DS));
    var cell := Cell(s, LastSegment(ps, DS), s.regs[EBX] + Contents(s, Register(EAX, 1)), 1);
    AssignmentLands(s, ps, 0, Register(EAX, 1), Contents(s, cell));
  }

  lemma NoOperandRows()
    ensures PlainOpcode(0xD7) && InstructionTable(0xD7) == Plain(OpXlat, 0)
    ensures PlainOpcode(0x9E) && InstructionTable(0x9E) == Plain(OpSahf, 0)
    ensures PlainOpcode(0x9F) && InstructionTable(0x9F) == Plain(OpLahf, 0)
    ensures Fixup(Plain(OpXlat, 0), 0) == Ok(Plain(OpXlat, 0)) && Fixup(Plain(OpSahf, 0), 0) == Ok(Plain(OpSahf, 0))
    ensures Fixup(Plain(OpLahf, 0), 0) == Ok(Plain(OpLahf, 0))
  {
  }

  lemma ExecutesAlone(i: Instruction, env: Env)
    ensures i.inst == Plain(OpXlat, 0) ==> Execute(i, env) == Ok(DoXlat(i.s))
    ensures i.inst == Plain(OpSahf, 0) ==> Execute(i, env) == Ok(DoSahf(i.s))
    ensures i.inst == Plain(OpLahf, 0) ==> Execute(i, env) == Ok(DoLahf(i.s))
  {
    hide DoXlat, DoSahf, DoLahf;
  }

  lemma XlatLoads(t: State, s: State, g: SegIndex)
    requires t.sgmtOverride == g && t.regs == s.regs && t.mem == s.mem && t.segs == s.segs
    ensures var cell := Cell(s, g, s.regs[EBX] + Contents(s, Register(EAX, 1)), 1);
            DoXlat(t) == Assigned(t, Register(EAX, 1), Contents(s, cell))
  {
    hide Linear, Read8, SetReg8, Assigned, Contents, Reg8;
    AlHolds(s);
    AlHolds(t);
    var offset := s.regs[EBX] + s.regs[EAX] % TWO8;
    ByteAt(t, g, offset);
    SamePlaces(t, s, Cell(s, g, offset, 1), 0);
    ByteAssigned(t, Read8(t.mem, Linear(t, g, offset)));
  }

  lemma AlHolds(s: State)
    ensures Contents(s, Register(EAX, 1)) == Reg8(s, EAX) == s.regs[EAX] % TWO8
  {
  }

  lemma ByteAt(s: State, g: SegIndex, offset: int)
    ensures Read8(s.mem, Linear(s, g, offset)) == Contents(s, Cell(s, g, offset, 1))
  {
    IndexOf(s, g, offset);
    ShortNumbers(s.mem, (s.segs[g].base + offset) % Span(s.mem));
    hide Number, Linear;
  }

  lemma ByteAssigned(s: State, v: u8)
    ensures SetReg8(s, EAX, v) == Assigned(s, LowByte(EAX), v)
  {
    SplitRegister(s.regs[EAX]);
  }

  /** SAHF, 9E: SF, ZF, AF, PF and CF become bits 7, 6, 4, 2 and 0 of AH, and the other flags stay. */
  lemma StepSahf(s: State, ps: seq<u8>, rest: seq<u8>, env: Env)
    requires At(s, ps, 0x9E, rest)
    ensures var ah := Contents(s, HighByte(EAX));
            Step.Step(s, env) ==
              Ok(Behind(s, |ps| + 1).(eflags := s.eflags[SIGN := BitOf(ah, 7)][ZERO := BitOf(ah, 6)]
                                                        [AUX := BitOf(ah, 4)][PARITY := BitOf(ah, 2)]
                                                        [CARRY := BitOf(ah, 0)]))
  {
    hide CodeIs, Step.Step, Execute, InstructionTable, Behind, Finished, Fixup, PlainOpcode, Executing, LastSegment;
    NoOperandRows();
    var i := StepPlain(s, ps, 0x9E, rest, env, Plain(OpSahf, 0));
    ExecutingKeeps(s, ps, 0);
    ExecutesAlone(i, env);
    SahfLoads(i.s);
    FlagsLand(s, ps, 0, Execute(i, env).value);
  }

  lemma FlagsLand(s: State, ps: seq<u8>, n: nat, t: State)
    requires NothingPending(s) && t == Executing(s, ps, n).(eflags := t.eflags)
    ensures Finished(s, Ok(t)) == Ok(Behind(s, |ps| + 1 + n).(eflags := t.eflags))
  {
    hide Wrap32, OverridesSegment, LastSegment, Counted;
    WrapTwice(s.eip + |ps| + 1, n);
    assert s.eip + |ps| + 1 + n == s.eip + (|ps| + 1 + n);
    Lands(s, ps, n, t);
  }

  lemma SahfLoads(s: State)
    ensures var (ah, e) := (s.regs[EAX] / TWO8 % TWO8, s.eflags);
            DoSahf(s) == s.(eflags := e[SIGN := BitOf(ah, 7)][ZERO := BitOf(ah, 6)][AUX := BitOf(ah, 4)]
                                       [PARITY := BitOf(ah, 2)][CARRY := BitOf(ah, 0)])
  {
    var (ah, e) := (s.regs[EAX] / TWO8 % TWO8, s.eflags);
    BitsOfByte(ah);
    hide TestBit, BitOf;
    assert DoSahf(s).eflags == e[SIGN := BitOf(ah, 7)][ZERO := BitOf(ah, 6)][AUX := BitOf(ah, 4)]
                                [PARITY := BitOf(ah, 2)][CARRY := BitOf(ah, 0)];
  }

  lemma BitsOfByte(v: u8)
    ensures TestBit(v, 1) == BitOf(v, 0) && TestBit(v, 4) == BitOf(v, 2) && TestBit(v, 16) == BitOf(v, 4)
    ensures TestBit(v, 64) == BitOf(v, 6) && TestBit(v, 128) == BitOf(v, 7)
  {
    SmallPowers();
    TestedBit(v, 1);
    TestedBit(v, 4);
    TestedBit(v, 16);
    TestedBit(v, 64);
    TestedBit(v, 128);
    hide Pow2, TestBit;
  }

  lemma TestedBit(v: int, w: int)
    requires w > 0
    ensures TestBit(v, w) <==> v / w % 2 == 1
  {
    var (q, r) := (v / w, v % w);
    assert v == q * w + r;
    assert q * w == (q / 2) * (2 * w) + (q % 2) * w;
    assert (q % 2) * w == if q % 2 == 1 then w else 0;
    DivModUnique(v, q / 2, (q % 2) * w + r, 2 * w);
  }

  lemma SmallPowers()
    ensures Pow2(0) == 1 && Pow2(1) == 2 && Pow2(2) == 4 && Pow2(4) == 16 && Pow2(6) == 64 && Pow2(7) == 128
  {
    assert Pow2(3) == 8 && Pow2(5) == 32;
  }

  /** LAHF, 9F: bit k of AH becomes flag k, for the low eight flags. */
  lemma StepLahf(s: State, ps: seq<u8>, rest: seq<u8>, env: Env)
    requires At(s, ps, 0x9F, rest)
    ensures Step.Step(s, env) == Ok(Assigned(Behind(s, |ps| + 1), HighByte(EAX), ToWord(s.eflags)))
    ensures forall k :: 0 <= k < 8 ==> (BitOf(ToWord(s.eflags), k) <==> s.eflags[k])
  {
    hide CodeIs, Step.Step, Execute, InstructionTable, Behind, Finished, Fixup, PlainOpcode, Executing, LastSegment;
    hide Assigned, DoLahf, BitOf, ToWord;
    NoOperandRows();
    var i := StepPlain(s, ps, 0x9F, rest, env, Plain(OpLahf, 0));
    ExecutingKeeps(s, ps, 0);
    ExecutesAlone(i, env);
    LahfStores(i.s);
    AssignmentLands(s, ps, 0, HighByte(EAX), ToWord(s.eflags));
    forall k | 0 <= k < 8 ensures BitOf(ToWord(s.eflags), k) <==> s.eflags[k] { FlagBit(s.eflags, k); }
  }

  lemma FlagBit(e: Bits32, k: nat)
    requires k < 32
    ensures BitOf(ToWord(e), k) <==> e[k]
  {
    WordBits(e, k);
  }

  lemma LahfStores(s: State)
    ensures DoLahf(s) == Assigned(s, HighByte(EAX), ToWord(s.eflags))
  {
    hide ToWord;
    SplitRegister(s.regs[EAX]);
  }
}
