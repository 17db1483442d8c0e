/** Single instructions as the interpreter runs them: what one step does when the bytes at EIP are known and no prefix
    is pending. Whole programs are built from these. */
module Instructions {
  import opened Words
  import opened I386
  import opened Machine
  import opened Step
  import opened RunInvariants
  import opened FlagLaws

  /** The opcode byte has been fetched and the step counted. */
  function Fetched(s: State): State { Skip(s, 1).(stepsRun := s.stepsRun + 1) }

  /** An opcode with an entry of its own: neither a prefix nor an escape to another entry. */
  predicate PlainOpcode(b: u8)
  {
    var t := InstructionTable(b).opType;
    !IsPrefix(b) && !t.OpExtended? && !t.OpRepez? && !t.OpRepne?
  }

  lemma BareStep(s: State, env: Env, i: Instruction)
    requires PlainOpcode(Code8(s)) && Decode(Fetched(s), InstructionTable(Code8(s))) == Ok(i)
    ensures Step.Step(s, env) == Execute(i, env)
  {
    hide Decode, Execute, InstructionTable, Code8;
  }

  /** The state before execution: EIP and old_eip are behind the instruction. */
  function Behind(s: State, size: nat): State
  {
    s.(eip := Wrap32(s.eip + size), oldEip := Wrap32(s.eip + size), stepsRun := s.stepsRun + 1)
  }

  // ----- Decoding -----

  predicate Takes(op: Operand) { op.kind.KImm? || op.kind.KSimm? || op.kind.KIpRel? || op.kind.KOffset? }

  predicate Inline(op: Operand)
  {
    || op == NONE || op.kind.KConstReg? || op.kind.KConstant? || op.kind.KRmModrm? || op.kind.KRegModrm?
    || op.kind.KSegRegModrm? || op.kind.KConstSegReg? || op.kind.KEdxEax? || Takes(op)
  }

  /** At most one operand is in the code. */
  predicate InlineOperands(inst: Op)
  {
    && Inline(inst.dest) && Inline(inst.src1) && Inline(inst.src2)
    && !(Takes(inst.dest) && Takes(inst.src1)) && !(Takes(inst.dest) && Takes(inst.src2))
    && !(Takes(inst.src1) && Takes(inst.src2))
  }

  /** The same, and no operation in a reg field. */
  predicate Simple(inst: Op) { !inst.opType.OpMultiplexedFF? && !inst.opType.OpAluSpecial? && InlineOperands(inst) }

  function BytesTaken(s: State, op: Operand): nat {
    if op.kind.KOffset? then (if AddrSize32(s) then 4 else 2)
    else if Takes(op) then ImmBytes(ActualSize(op.size, OpSize32(s))) else 0
  }

  /** What an operand denotes when its bytes, if it has any, start at EIP. */
  function Meaning(s: State, rm: Decoded, reg: RegIndex, op: Operand): Decoded
  {
    var size := ActualSize(op.size, OpSize32(s));
    match op.kind
    case KRmModrm => DecodedRm(s, rm, size)
    case KRegModrm => Decoded(DReg, reg, size, 0)
    case KConstReg => Decoded(DReg, op.value, size, 0)
    case KSegRegModrm => Decoded(DSegReg, reg, size, 0)
    case KConstSegReg => Decoded(DSegReg, op.value, size, 0)
    case KEdxEax => Decoded(DEdxEax, 0, size, 0)
    case KOffset => Decoded(DMem, if AddrSize32(s) then Code32(s) else Code16(s), size, s.sgmtOverride)
    case KConstant => Decoded(DImm, op.value, size, 0)
    case KImm => Decoded(DImm, ImmValue(s, size), size, 0)
    case KSimm => Decoded(DImm, SignedImm(s, size), size, 0)
    case KIpRel => Decoded(DImm, Wrap32(s.eip + ImmBytes(size) + SignedImm(s, size)), size, 0)
    case _ => NO_RM
  }

  lemma OperandMeans(s: State, rm: Decoded, reg: RegIndex, op: Operand)
    requires Inline(op)
    ensures DecodeOperand(s, rm, reg, op) == Ok((Meaning(s, rm, reg, op), Skip(s, BytesTaken(s, op))))
  {
    hide ImmValue, SignedImm, Wrap32, ImmBytes;
    WrapSmall(s.eip);
    var size := ActualSize(op.size, OpSize32(s));
    WrapTwice(s.eip + ImmBytes(size), SignedImm(s, size));
  }

  lemma FixedMeaning(s: State, rm: Decoded, reg: RegIndex, op: Operand, n: nat)
    requires !Takes(op)
    ensures Meaning(Skip(s, n), rm, reg, op) == Meaning(s, rm, reg, op)
        && BytesTaken(Skip(s, n), op) == BytesTaken(s, op) == 0
  {
  }

  /** The decoded form of an instruction whose operand bytes are at EIP. */
  function Form(s: State, rm: Decoded, reg: RegIndex, inst: Op): Instruction
  {
    var t := Skip(s, BytesTaken(s, inst.dest) + BytesTaken(s, inst.src1) + BytesTaken(s, inst.src2));
    Instruction(inst, reg, Meaning(s, rm, reg, inst.dest), Meaning(s, rm, reg, inst.src1),
      Meaning(s, rm, reg, inst.src2),
                t.(oldEip := t.eip))
  }

  lemma OperandsDecode(s: State, rm: Decoded, reg: RegIndex, inst: Op)
    requires InlineOperands(inst)
    ensures DecodeOperands(s, rm, reg, inst) == Ok(Form(s, rm, reg, inst))
  {
    hide DecodeOperand, Meaning, BytesTaken, Wrap32;
    var (k, n) := (BytesTaken(s, inst.dest), BytesTaken(s, inst.src1));
    OperandMeans(s, rm, reg, inst.dest);
    OperandMeans(Skip(s, k), rm, reg, inst.src1);
    MeaningBehind(s, rm, reg, inst.dest, inst.src1, k);
    WrapTwice(s.eip + k, n);
    assert Skip(Skip(s, k), n) == Skip(s, k + n);
    OperandMeans(Skip(s, k + n), rm, reg, inst.src2);
    if Takes(inst.dest) {
      FixedMeaning(s, rm, reg, inst.src1, 0);
      MeaningBehind(s, rm, reg, inst.dest, inst.src2, k + n);
    } else {
      FixedMeaning(s, rm, reg, inst.dest, 0);
      MeaningBehind(s, rm, reg, inst.src1, inst.src2, k + n);
    }
    WrapTwice(s.eip + k + n, BytesTaken(s, inst.src2));
  }

  /** An operand means the same behind another, since only one of the two is in the code. */
  lemma MeaningBehind(s: State, rm: Decoded, reg: RegIndex, first: Operand, op: Operand, n: nat)
    requires !(Takes(first) && Takes(op)) && n == BytesTaken(s, first)
    ensures Meaning(Skip(s, n), rm, reg, op) == Meaning(s, rm, reg, op)
    ensures BytesTaken(Skip(s, n), op) == BytesTaken(s, op)
  {
    hide Meaning, Wrap32, ImmBytes;
    if Takes(op) {
      WrapSmall(s.eip);
      assert Skip(s, n) == s;
    } else {
      FixedMeaning(s, rm, reg, op, n);
    }
  }

  /** One step over an instruction without a ModR/M byte is the execution of its form. */
  lemma DirectStep(s: State, env: Env, inst: Op)
    requires PlainOpcode(Code8(s)) && InstructionTable(Code8(s)) == inst && Simple(inst) && !UsesModrm(inst)
    ensures Step.Step(s, env) == Execute(Form(Fetched(s), NO_RM, 0, inst), env)
  {
    hide PlainOpcode, DecodeOperands, Execute, InstructionTable, Code8, Form;
    var t := Fetched(s);
    OperandsDecode(t, NO_RM, 0, inst);
    assert Fixup(inst, 0) == Ok(inst);
    BareStep(s, env, Form(t, NO_RM, 0, inst));
  }

  /** The same with a ModR/M byte that `rm` and `t` are decoded from. */
  lemma ModrmStep(s: State, env: Env, inst: Op, modrm: u8, rm: Decoded, t: State)
    requires PlainOpcode(Code8(s)) && InstructionTable(Code8(s)) == inst && Simple(inst) && UsesModrm(inst)
    requires Code8(Fetched(s)) == modrm && DecodeRm(Skip(Fetched(s), 1), modrm) == Ok((rm, t))
    ensures Step.Step(s, env) == Execute(Form(t, rm, RegOf(modrm), inst), env)
  {
    hide PlainOpcode, DecodeOperands, Execute, InstructionTable, Code8, Form, DecodeRm, Simple;
    SimpleIsInline(inst);
    OperandsDecode(t, rm, RegOf(modrm), inst);
    NotFixed(inst, RegOf(modrm));
    BareStep(s, env, Form(t, rm, RegOf(modrm), inst));
  }

  lemma SimpleIsInline(inst: Op)
    requires Simple(inst)
    ensures InlineOperands(inst)
  {
  }

  lemma NotFixed(inst: Op, reg: RegIndex)
    requires Simple(inst)
    ensures Fixup(inst, reg) == Ok(inst)
  {
  }

  /** What the code bytes are does not depend on the step count. */
  lemma FetchedCode(s: State)
    ensures Code8(Fetched(s)) == Code8(Skip(s, 1)) && Code16(Fetched(s)) == Code16(Skip(s, 1))
    ensures Code32(Fetched(s)) == Code32(Skip(s, 1))
  {
    hide Read8, Read16, Read32, Wrap32;
  }

  lemma BehindForm(s: State, n: nat, t: State)
    requires t == Skip(Fetched(s), n)
    ensures t.(oldEip := t.eip) == Behind(s, n + 1)
  {
    WrapTwice(s.eip + 1, n);
  }

  // ----- 32-bit instructions -----

  /** 32-bit code and stack with a zero base and no prefix pending, as locutus sets the processor up. */
  ghost predicate Flat32(s: State)
  {
    && NothingPending(s) && |s.mem| == BUS32 + SLACK
    && s.segs[CS].use32 && s.segs[SS].use32 && s.segs[CS].base == 0 && s.segs[SS].base == 0
  }

  /** CALL with a 32-bit displacement. */
  lemma StepCall32(s: State, env: Env, target: u32)
    requires Flat32(s) && Code8(s) == 0xE8 && Wrap32(s.eip + 5 + Code32(Skip(s, 1))) == target
    ensures Step.Step(s, env) == Ok(Push(Behind(s, 5), Wrap32(s.eip + 5)).(eip := target))
  {
    hide Code8, Code32, Push, Wrap32, InstructionTable, Behind, Execute, Flat32, Form, Simple, PlainOpcode, Skip;
    var inst := Op(OpCallNear, 0, 0, NONE, IpRel(Sz1632), NONE);
    Entry32(0xE8);
    DirectStep(s, env, inst);
    CallForm(s, target);
    RunCall(Instruction(inst, 0, NO_RM, Decoded(DImm, target, Sz32, 0), NO_RM, Behind(s, 5)), env, target);
    BehindEip(s, 5);
  }

  lemma BehindEip(s: State, n: nat)
    ensures Behind(s, n).eip == Wrap32(s.eip + n)
  {
  }

  lemma CallForm(s: State, target: u32)
    requires Flat32(s) && Wrap32(s.eip + 5 + Code32(Skip(s, 1))) == target
    ensures var inst := Op(OpCallNear, 0, 0, NONE, IpRel(Sz1632), NONE);
            Form(Fetched(s), NO_RM, 0, inst) ==
              Instruction(inst, 0, NO_RM, Decoded(DImm, target, Sz32, 0), NO_RM, Behind(s, 5))
  {
    hide Code32, Wrap32, Behind;
    FetchedCode(s);
    BehindForm(s, 4, Skip(Fetched(s), 4));
    WrapTwice(s.eip + 1, 4 + Code32(Skip(s, 1)));
  }

  lemma RunCall(i: Instruction, env: Env, target: u32)
    requires i.inst.opType.OpCallNear? && i.src1 == Decoded(DImm, target, i.src1.size, 0)
    ensures Execute(i, env) == Ok(Push(i.s, i.s.eip).(eip := target))
  {
    hide Push;
    WrapSmall(target);
  }

  /** MOV EAX, imm32. */
  lemma StepMovEax32(s: State, env: Env)
    requires Flat32(s) && Code8(s) == 0xB8
    ensures Step.Step(s, env) == Ok(SetReg32(Behind(s, 5), EAX, Code32(Skip(s, 1))))
  {
    hide Code8, Code32, Wrap32, InstructionTable, Behind, Execute, Flat32, Form, Simple, PlainOpcode, Skip;
    var inst := Op(OpMov, 0, 0, ConstReg(Sz1632, EAX), Imm(Sz1632), NONE);
    var v := Code32(Skip(s, 1));
    Entry32(0xB8);
    DirectStep(s, env, inst);
    MovForm(s, v);
    RunMov(Instruction(inst, 0, Decoded(DReg, EAX, Sz32, 0), Decoded(DImm, v, Sz32, 0), NO_RM, Behind(s, 5)), env, v);
  }

  lemma MovForm(s: State, v: u32)
    requires Flat32(s) && v == Code32(Skip(s, 1))
    ensures var inst := Op(OpMov, 0, 0, ConstReg(Sz1632, EAX), Imm(Sz1632), NONE);
            Form(Fetched(s), NO_RM, 0, inst)
              == Instruction(inst, 0, Decoded(DReg, EAX, Sz32, 0), Decoded(DImm, v, Sz32, 0), NO_RM, Behind(s, 5))
  {
    hide Code32, Wrap32, Behind;
    FetchedCode(s);
    BehindForm(s, 4, Skip(Fetched(s), 4));
  }

  lemma RunMov(i: Instruction, env: Env, v: u32)
    requires i.inst.opType.OpMov? && i.dst == Decoded(DReg, EAX, Sz32, 0) && i.src1 == Decoded(DImm, v, Sz32, 0)
    ensures Execute(i, env) == Ok(SetReg32(i.s, EAX, v))
  {
    WrapSmall(v);
  }

  /** INT 80h: the host function is told where its arguments are. */
  lemma StepHostCall32(s: State, env: Env)
    requires Flat32(s) && Code8(s) == 0xCD && Code8(Skip(s, 1)) == 0x80
    ensures var h := env.host(s.regs[EAX], Wrap32(s.regs[ESP] as int + 4), s.mem);
            Step.Step(s, env) == Ok(Behind(s, 2).(regs := s.regs[EAX := h.eax], mem := HostStores(s.mem, h.stores)))
  {
    hide Code8, Wrap32, InstructionTable, Execute, Flat32, Form, Simple, PlainOpcode, Skip, HostStores;
    var inst := Op(OpInt, 0, 0, NONE, Imm(Sz8), NONE);
    Entry32(0xCD);
    DirectStep(s, env, inst);
    IntForm(s);
    RunInt(Instruction(inst, 0, NO_RM, Decoded(DImm, 0x80, Sz8, 0), NO_RM, Behind(s, 2)), env);
  }

  lemma IntForm(s: State)
    requires Flat32(s) && Code8(Skip(s, 1)) == 0x80
    ensures var inst := Op(OpInt, 0, 0, NONE, Imm(Sz8), NONE);
            Form(Fetched(s), NO_RM, 0, inst) ==
              Instruction(inst, 0, NO_RM, Decoded(DImm, 0x80, Sz8, 0), NO_RM, Behind(s, 2))
  {
    hide Code8, Wrap32, Behind;
    FetchedCode(s);
    BehindForm(s, 1, Skip(Fetched(s), 1));
  }

  lemma RunInt(i: Instruction, env: Env)
    requires i.inst.opType.OpInt? && i.src1 == Decoded(DImm, 0x80, Sz8, 0)
    ensures var h := env.host(i.s.regs[EAX], Wrap32(i.s.regs[ESP] as int + 4), i.s.mem);
            Execute(i, env) == Ok(i.s.(regs := i.s.regs[EAX := h.eax], mem := HostStores(i.s.mem, h.stores)))
  {
    hide HostStores;
  }

  /** RET. */
  lemma StepRet(s: State, env: Env)
    requires Code8(s) == 0xC3
    ensures Step.Step(s, env) == Ok(Drop(Behind(s, 1)).(eip := Top(Behind(s, 1))))
  {
    hide Code8, Wrap32, InstructionTable, Behind, Execute, Flat32, Form, Simple, PlainOpcode, Skip, Drop, Top;
    var inst := Op(OpRetNear, 0, 0, NONE, Constant(Sz16, 0), NONE);
    Entry32(0xC3);
    DirectStep(s, env, inst);
    RetForm(s);
    RunRet(Instruction(inst, 0, NO_RM, Decoded(DImm, 0, Sz16, 0), NO_RM, Behind(s, 1)), env);
  }

  lemma RetForm(s: State)
    ensures var inst := Op(OpRetNear, 0, 0, NONE, Constant(Sz16, 0), NONE);
            Form(Fetched(s), NO_RM, 0, inst) ==
              Instruction(inst, 0, NO_RM, Decoded(DImm, 0, Sz16, 0), NO_RM, Behind(s, 1))
  {
    hide Wrap32, Behind;
    BehindForm(s, 0, Skip(Fetched(s), 0));
  }

  lemma RunRet(i: Instruction, env: Env)
    requires i.inst.opType.OpRetNear? && i.src1 == Decoded(DImm, 0, Sz16, 0)
    ensures Execute(i, env) == Ok(Drop(i.s).(eip := Top(i.s)))
  {
    hide Top;
    var d := Drop(i.s);
    WrapSmall(d.regs[ESP]);
    assert SetReg32(d, ESP, d.regs[ESP] + 0) == d;
  }

  lemma Entry32(b: u8)
    requires b == 0xE8 || b == 0xB8 || b == 0xCD || b == 0xC3
    ensures PlainOpcode(b) && Simple(InstructionTable(b)) && !UsesModrm(InstructionTable(b))
    ensures b == 0xE8 ==> InstructionTable(b) == Op(OpCallNear, 0, 0, NONE, IpRel(Sz1632), NONE)
    ensures b == 0xB8 ==> InstructionTable(b) == Op(OpMov, 0, 0, ConstReg(Sz1632, EAX), Imm(Sz1632), NONE)
    ensures b == 0xCD ==> InstructionTable(b) == Op(OpInt, 0, 0, NONE, Imm(Sz8), NONE)
    ensures b == 0xC3 ==> InstructionTable(b) == Op(OpRetNear, 0, 0, NONE, Constant(Sz16, 0), NONE)
  {
  }

  // ----- 16-bit instructions -----

  /** 16-bit code and stack and no prefix pending, as maverick runs a boot sector. */
  ghost predicate Real16(s: State) { NothingPending(s) && !s.segs[CS].use32 && !s.segs[SS].use32 }

  /** Register `r` has its low half replaced by `v`; the flags may differ. */
  ghost predicate Updates(b: State, t: State, r: RegIndex, v: int)
  {
    t == SetReg16(b.(eflags := t.eflags), r, v)
  }

  /** Decoded forms common to the instructions below. */
  function Word16(r: RegIndex): Decoded { Decoded(DReg, r, Sz16, 0) }
  function RmWord16(r: RegIndex): Decoded { Decoded(DReg, r, Sz16, DS) }
  function Imm16(v: u32): Decoded { Decoded(DImm, v, Sz16, 0) }

  lemma WordIsShort(s: State, d: Decoded, r: RegIndex, v: int)
    requires d == Word16(r) || d == RmWord16(r)
    ensures ReadSource(s, d) == Ok(Reg16(s, r)) && WriteDest(s, d, v) == Ok(SetReg16(s, r, v))
  {
  }

  /** Any ALU operation on two words that leaves `res` in a 16-bit register. */
  lemma RunAlu16(i: Instruction, env: Env, op: nat, r: RegIndex, b: u32, res: u32, e: Bits32)
    requires i.inst.opType.OpAlu? && op == (if i.inst.subType == ALU_MULTI then i.reg else i.inst.subType)
        && op != ALU_CMP
    requires (i.dst == Word16(r) || i.dst == RmWord16(r)) && i.src1 == i.dst && ReadSource(i.s, i.src2) == Ok(b)
    requires AluResult(op, i.s.eflags, Reg16(i.s, r), b, Sz16) == Ok((res, e))
    ensures Execute(i, env) == Ok(SetReg16(i.s.(eflags := e), r, res))
  {
    hide AluResult, SetReg16, Reg16, ReadSource, WriteDest;
    WordIsShort(i.s, i.dst, r, res);
    WordIsShort(i.s.(eflags := e), i.dst, r, res);
    WrapSmall(Reg16(i.s, r));
    WrapSmall(b);
  }

  lemma DecodeRmReg16(s: State, modrm: u8)
    requires !AddrSize32(s) && ModField(modrm) == 3
    ensures DecodeRm(s, modrm) == Ok((Decoded(DReg, RmOf(modrm), Sz8, 0), s))
  {
  }

  /** XOR CX, CX. */
  lemma StepClearCx(s: State, env: Env)
    requires Real16(s) && Code8(s) == 0x31 && Code8(Skip(s, 1)) == 0xC9
    ensures Step.Step(s, env).Ok? && Updates(Behind(s, 2), Step.Step(s, env).value, ECX, 0)
  {
    hide Code8, Wrap32, InstructionTable, Behind, Execute, Real16, Form, Simple;
    hide PlainOpcode, Skip, Step.Step, AluResult, SetReg16, Fetched;
    var inst := Op(OpAlu, ALU_XOR, USE_MODRM, Rm(Sz1632), Rm(Sz1632), RegField(Sz1632));
    EntryXor();
    FetchedCode(s);
    RealFetched(s);
    DecodeRmReg16(Skip(Fetched(s), 1), 0xC9);
    ModrmStep(s, env, inst, 0xC9, Decoded(DReg, ECX, Sz8, 0), Skip(Fetched(s), 1));
    XorForm(s);
    var b := Behind(s, 2);
    XorResult(b);
    RunAlu16(Instruction(inst, ECX, RmWord16(ECX), RmWord16(ECX), Word16(ECX), b), env, ALU_XOR, ECX, Reg16(b, ECX), 0,
             LogicFlags(b.eflags, 0, Sz16));
    UpdatesBy(b, LogicFlags(b.eflags, 0, Sz16), ECX, 0);
  }

  lemma UpdatesBy(b: State, e: Bits32, r: RegIndex, v: int)
    ensures Updates(b, SetReg16(b.(eflags := e), r, v), r, v) && SetReg16(b.(eflags := e), r, v).eflags == e
  {
  }

  lemma EntryXor()
    ensures PlainOpcode(0x31)
    ensures var inst := Op(OpAlu, ALU_XOR, USE_MODRM, Rm(Sz1632), Rm(Sz1632), RegField(Sz1632));
            InstructionTable(0x31) == inst && Simple(inst) && UsesModrm(inst)
  {
  }

  lemma RealFetched(s: State)
    requires Real16(s)
    ensures !AddrSize32(Fetched(s)) && !OpSize32(Fetched(s)) && !AddrSize32(Skip(Fetched(s), 1))
        && !OpSize32(Skip(Fetched(s), 1))
  {
  }

  lemma XorForm(s: State)
    requires Real16(s)
    ensures var inst := Op(OpAlu, ALU_XOR, USE_MODRM, Rm(Sz1632), Rm(Sz1632), RegField(Sz1632));
            Form(Skip(Fetched(s), 1), Decoded(DReg, ECX, Sz8, 0), ECX, inst)
              == Instruction(inst, ECX, RmWord16(ECX), RmWord16(ECX), Word16(ECX), Behind(s, 2))
  {
    hide Wrap32, Behind;
    BehindForm(s, 1, Skip(Fetched(s), 1));
    WrapSmall(Skip(Fetched(s), 1).eip);
    assert Skip(Skip(Fetched(s), 1), 0) == Skip(Fetched(s), 1);
  }

  lemma XorResult(b: State)
    ensures AluResult(ALU_XOR, b.eflags, Reg16(b, ECX), Reg16(b, ECX), Sz16) == Ok((0, LogicFlags(b.eflags, 0, Sz16)))
    ensures ReadSource(b, Word16(ECX)) == Ok(Reg16(b, ECX))
  {
    hide LogicFlags;
    XorSelf(Reg16(b, ECX));
  }

  /** SUB AX, imm8 with an immediate below 128: the carry flag is the borrow. */
  lemma StepSubAx(s: State, env: Env, imm: u8)
    requires Real16(s) && Code8(s) == 0x83 && Code8(Skip(s, 1)) == 0xE8 && Code8(Skip(s, 2)) == imm < 0x80
    ensures Step.Step(s, env).Ok?
    ensures Updates(Behind(s, 3), Step.Step(s, env).value, EAX, Reg16(s, EAX) as int - imm)
    ensures Step.Step(s, env).value.eflags[CARRY] <==> Reg16(s, EAX) < imm
  {
    hide Code8, Wrap32, InstructionTable, Execute, Real16, Form, Simple, PlainOpcode;
    hide Skip, Step.Step, AluResult, SetReg16, Fetched, SubFlags;
    var inst := Op(OpAlu, ALU_MULTI, USE_MODRM, Rm(Sz1632), Rm(Sz1632), Operand(KSimm, Sz8, 0));
    Entry83();
    FetchedCode(s);
    RealFetched(s);
    DecodeRmReg16(Skip(Fetched(s), 1), 0xE8);
    ModrmStep(s, env, inst, 0xE8, Decoded(DReg, EAX, Sz8, 0), Skip(Fetched(s), 1));
    SubForm(s, imm);
    var b := Behind(s, 3);
    var (a, res) := (Reg16(b, EAX), Wrap32(Reg16(b, EAX) - imm));
    SubResult(b, imm);
    RunAlu16(Instruction(inst, ALU_SUB, RmWord16(EAX), RmWord16(EAX), Decoded(DImm, imm, Sz8, 0), b), env, ALU_SUB, EAX,
      imm, res,
             SubFlags(b.eflags, a, imm, res, Sz16));
    UpdatesBy(b, SubFlags(b.eflags, a, imm, res, Sz16), EAX, res);
    SameLowWord(b, EAX, a as int - imm, res);
  }

  lemma Entry83()
    ensures PlainOpcode(0x83)
    ensures var inst := Op(OpAlu, ALU_MULTI, USE_MODRM, Rm(Sz1632), Rm(Sz1632), Operand(KSimm, Sz8, 0));
            InstructionTable(0x83) == inst && Simple(inst) && UsesModrm(inst)
  {
  }

  lemma SubForm(s: State, imm: u8)
    requires Real16(s) && Code8(Skip(s, 2)) == imm < 0x80
    ensures var inst := Op(OpAlu, ALU_MULTI, USE_MODRM, Rm(Sz1632), Rm(Sz1632), Operand(KSimm, Sz8, 0));
            Form(Skip(Fetched(s), 1), Decoded(DReg, EAX, Sz8, 0), 5, inst)
              == Instruction(inst, 5, RmWord16(EAX), RmWord16(EAX), Decoded(DImm, imm, Sz8, 0), Behind(s, 3))
  {
    hide Wrap32, Behind, Read8;
    WrapTwice(s.eip + 1, 1);
    BehindForm(s, 2, Skip(Fetched(s), 2));
    WrapTwice(Fetched(s).eip + 1, 1);
    assert Skip(Skip(Fetched(s), 1), 1) == Skip(Fetched(s), 2);
    WrapSmall(imm);
  }

  lemma SubResult(b: State, imm: u8)
    ensures var (a, res) := (Reg16(b, EAX), Wrap32(Reg16(b, EAX) - imm));
            && AluResult(ALU_SUB, b.eflags, a, imm, Sz16) == Ok((res, SubFlags(b.eflags, a, imm, res, Sz16)))
            && (SubFlags(b.eflags, a, imm, res, Sz16)[CARRY] <==> a < imm)
    ensures ReadSource(b, Decoded(DImm, imm, Sz8, 0)) == Ok(imm)
  {
    hide SetAux, SetSZP, OverflowSub;
    Borrow(Reg16(b, EAX), imm, 0, Sz16);
  }

  /** Only the low word of a 16-bit result matters. */
  lemma SameLowWord(b: State, r: RegIndex, v: int, res: u32)
    requires res == Wrap32(v)
    ensures forall t :: Updates(b, t, r, res) <==> Updates(b, t, r, v)
  {
    NarrowWrap(v);
  }

  /** ADD AX, imm16. */
  lemma StepAddAx(s: State, env: Env, imm: u16)
    requires Real16(s) && Code8(s) == 0x05 && Code16(Skip(s, 1)) == imm
    ensures Step.Step(s, env).Ok? && Updates(Behind(s, 3), Step.Step(s, env).value, EAX, Reg16(s, EAX) + imm)
  {
    hide Code8, Code16, Wrap32, InstructionTable, Execute, Real16, Form, Simple;
    hide PlainOpcode, Skip, Step.Step, AluResult, SetReg16, Fetched, AddFlags;
    var inst := Op(OpAlu, ALU_ADD, 0, ConstReg(Sz1632, EAX), ConstReg(Sz1632, EAX), Imm(Sz1632));
    Entry05();
    DirectStep(s, env, inst);
    AddForm(s, imm);
    var b := Behind(s, 3);
    var (a, res) := (Reg16(b, EAX), Wrap32(Reg16(b, EAX) + imm));
    AddResult(b, imm);
    RunAlu16(Instruction(inst, 0, Word16(EAX), Word16(EAX), Imm16(imm), b), env, ALU_ADD, EAX, imm, res,
             AddFlags(b.eflags, a, imm, res, Sz16));
    UpdatesBy(b, AddFlags(b.eflags, a, imm, res, Sz16), EAX, res);
    SameLowWord(b, EAX, a + imm, res);
  }

  lemma Entry05()
    ensures PlainOpcode(0x05)
    ensures var inst := Op(OpAlu, ALU_ADD, 0, ConstReg(Sz1632, EAX), ConstReg(Sz1632, EAX), Imm(Sz1632));
            InstructionTable(0x05) == inst && Simple(inst) && !UsesModrm(inst)
  {
  }

  lemma AddForm(s: State, imm: u16)
    requires Real16(s) && Code16(Skip(s, 1)) == imm
    ensures var inst := Op(OpAlu, ALU_ADD, 0, ConstReg(Sz1632, EAX), ConstReg(Sz1632, EAX), Imm(Sz1632));
            Form(Fetched(s), NO_RM, 0, inst) == Instruction(inst, 0, Word16(EAX), Word16(EAX), Imm16(imm), Behind(s, 3))
  {
    hide Wrap32, Behind, Code16;
    FetchedCode(s);
    BehindForm(s, 2, Skip(Fetched(s), 2));
  }

  lemma AddResult(b: State, imm: u16)
    ensures var (a, res) := (Reg16(b, EAX), Wrap32(Reg16(b, EAX) + imm));
            AluResult(ALU_ADD, b.eflags, a, imm, Sz16) == Ok((res, AddFlags(b.eflags, a, imm, res, Sz16)))
    ensures ReadSource(b, Imm16(imm)) == Ok(imm)
  {
    hide AddFlags;
  }

  /** INC and DEC of a word register: the zero flag says whether the result is zero. */
  lemma StepIncDec(s: State, env: Env, r: RegIndex, dec: bool)
    requires Real16(s) && Code8(s) == (if dec then 0x48 + r else 0x40 + r)
    ensures Step.Step(s, env).Ok?
    ensures Updates(Behind(s, 1), Step.Step(s, env).value, r, if dec then Reg16(s, r) as int - 1 else Reg16(s, r) + 1)
    ensures Step.Step(s, env).value.eflags[ZERO] <==>
        Wrap16(if dec then Reg16(s, r) as int - 1 else Reg16(s, r) + 1) == 0
  {
    hide Code8, Wrap32, InstructionTable, Execute, Real16, Form, Simple, PlainOpcode, Skip, Step.Step, SetReg16,
      Fetched, Wrap16;
    var inst := Op(OpIncDec, if dec then ID_DEC else ID_INC, 0, ConstReg(Sz1632, r), ConstReg(Sz1632, r), NONE);
    EntryIncDec(r, dec);
    DirectStep(s, env, inst);
    IncDecForm(s, r, inst);
    RunIncDec(Instruction(inst, 0, Word16(r), Word16(r), NO_RM, Behind(s, 1)), env, r, dec);
  }

  lemma EntryIncDec(r: RegIndex, dec: bool)
    ensures PlainOpcode(if dec then 0x48 + r else 0x40 + r)
    ensures var inst := Op(OpIncDec, if dec then ID_DEC else ID_INC, 0, ConstReg(Sz1632, r), ConstReg(Sz1632, r), NONE);
            InstructionTable(if dec then 0x48 + r else 0x40 + r) == inst && Simple(inst) && !UsesModrm(inst)
  {
  }

  lemma IncDecForm(s: State, r: RegIndex, inst: Op)
    requires Real16(s) && inst.dest == inst.src1 == ConstReg(Sz1632, r) && inst.src2 == NONE
    ensures Form(Fetched(s), NO_RM, 0, inst) == Instruction(inst, 0, Word16(r), Word16(r), NO_RM, Behind(s, 1))
  {
    hide Wrap32, Behind;
    BehindForm(s, 0, Skip(Fetched(s), 0));
  }

  lemma RunIncDec(i: Instruction, env: Env, r: RegIndex, dec: bool)
    requires i.inst.opType.OpIncDec? && i.inst.subType == (if dec then ID_DEC else ID_INC)
    requires i.dst == i.src1 == Word16(r)
    ensures Execute(i, env).Ok?
    ensures Updates(i.s, Execute(i, env).value, r, if dec then Reg16(i.s, r) as int - 1 else Reg16(i.s, r) + 1)
    ensures Execute(i, env).value.eflags[ZERO] <==>
        Wrap16(if dec then Reg16(i.s, r) as int - 1 else Reg16(i.s, r) + 1) == 0
  {
    var v := if dec then Reg16(i.s, r) as int - 1 else Reg16(i.s, r) + 1;
    NarrowWrap(v);
    hide SetAux, SetSZP, OverflowAdd, OverflowSub, Wrap16, SetReg16, ReadSource, WriteDest;
    WordIsShort(i.s, Word16(r), r, v);
    WrapSmall(Reg16(i.s, r));
    var res := Wrap32(v);
    var o := if dec then OverflowSub(Reg16(i.s, r), 1, res, Sz16) else OverflowAdd(Reg16(i.s, r), 1, res, Sz16);
    var e := SetAux(SetSZP(i.s.eflags, res, Sz16), Reg16(i.s, r), 1, res)[OVERFLOW := o];
    ZeroFlagOf(i.s.eflags, Reg16(i.s, r), 1, res, o);
    WordIsShort(i.s.(eflags := e), Word16(r), r, res);
    UpdatesBy(i.s, e, r, res);
    SameLowWord(i.s, r, v, res);
  }

  lemma ZeroFlagOf(e: Bits32, x: u32, y: u32, res: u32, o: bool)
    ensures SetAux(SetSZP(e, res, Sz16), x, y, res)[OVERFLOW := o][ZERO] <==> Wrap16(res) == 0
  {
  }

  /** A conditional jump with an 8-bit displacement. */
  lemma StepJump(s: State, env: Env, condition: nat)
    requires Real16(s) && condition < 16 && Code8(s) == 0x70 + condition
    ensures Step.Step(s, env) == Ok(if JumpCondition(s, condition)
        then Behind(s, 2).(eip := Wrap32(s.eip + 2 + Signed8(Code8(Skip(s, 1)))))
                                    else Behind(s, 2))
  {
    hide Code8, Wrap32, InstructionTable, Execute, Real16, Form, Simple;
    hide PlainOpcode, Skip, Step.Step, Fetched, Signed8, JumpCondition;
    var inst := Op(OpJump, condition, 0, NONE, IpRel(Sz8), NONE);
    EntryJump(condition);
    DirectStep(s, env, inst);
    JumpForm(s, inst);
    var target := Wrap32(s.eip + 2 + Signed8(Code8(Skip(s, 1))));
    RunJump(Instruction(inst, 0, NO_RM, Decoded(DImm, target, Sz8, 0), NO_RM, Behind(s, 2)), env, target);
    SameCondition(s, Behind(s, 2), condition);
  }

  lemma EntryJump(condition: nat)
    requires condition < 16
    ensures PlainOpcode(0x70 + condition)
    ensures var inst := Op(OpJump, condition, 0, NONE, IpRel(Sz8), NONE);
            InstructionTable(0x70 + condition) == inst && Simple(inst) && !UsesModrm(inst)
  {
  }

  lemma JumpForm(s: State, inst: Op)
    requires inst.dest == NONE && inst.src1 == IpRel(Sz8) && inst.src2 == NONE
    ensures Form(Fetched(s), NO_RM, 0, inst)
         == Instruction(inst, 0, NO_RM, Decoded(DImm, Wrap32(s.eip + 2 + Signed8(Code8(Skip(s, 1)))), Sz8, 0), NO_RM,
           Behind(s, 2))
  {
    hide Wrap32, Behind, Code8, Signed8;
    FetchedCode(s);
    BehindForm(s, 1, Skip(Fetched(s), 1));
    var d := Signed8(Code8(Skip(s, 1)));
    WrapTwice(s.eip + 1, 1 + Wrap32(d));
    WrapTwice(d, s.eip + 2);
  }

  lemma RunJump(i: Instruction, env: Env, target: u32)
    requires i.inst.opType.OpJump? && i.src1 == Decoded(DImm, target, Sz8, 0)
    ensures Execute(i, env) == Ok(if JumpCondition(i.s, i.inst.subType) then i.s.(eip := target) else i.s)
  {
    hide JumpCondition;
    WrapSmall(target);
  }

  lemma SameCondition(s: State, t: State, condition: nat)
    requires condition < 16 && s.eflags == t.eflags
    ensures JumpCondition(s, condition) == JumpCondition(t, condition)
  {
  }

  /** CALL with a 16-bit displacement. */
  lemma StepCall16(s: State, env: Env, target: u32)
    requires Real16(s) && Code8(s) == 0xE8 && Wrap32(s.eip + 3 + Signed16(Code16(Skip(s, 1)))) == target
    ensures Step.Step(s, env) == Ok(Push(Behind(s, 3), Wrap32(s.eip + 3)).(eip := target))
  {
    hide Code8, Code16, Push, Wrap32, InstructionTable, Behind, Execute, Real16;
    hide Form, Simple, PlainOpcode, Skip, Step.Step, Signed16;
    var inst := Op(OpCallNear, 0, 0, NONE, IpRel(Sz1632), NONE);
    Entry32(0xE8);
    DirectStep(s, env, inst);
    CallForm16(s, target);
    RunCall(Instruction(inst, 0, NO_RM, Decoded(DImm, target, Sz16, 0), NO_RM, Behind(s, 3)), env, target);
    BehindEip(s, 3);
  }

  lemma CallForm16(s: State, target: u32)
    requires Real16(s) && Wrap32(s.eip + 3 + Signed16(Code16(Skip(s, 1)))) == target
    ensures var inst := Op(OpCallNear, 0, 0, NONE, IpRel(Sz1632), NONE);
            Form(Fetched(s), NO_RM, 0, inst) ==
              Instruction(inst, 0, NO_RM, Decoded(DImm, target, Sz16, 0), NO_RM, Behind(s, 3))
  {
    hide Code16, Wrap32, Behind, Signed16;
    FetchedCode(s);
    BehindForm(s, 2, Skip(Fetched(s), 2));
    var d := Signed16(Code16(Skip(s, 1)));
    WrapTwice(s.eip + 1, 2 + Wrap32(d));
    WrapTwice(d, s.eip + 3);
  }

  /** XCHG AX, CX. */
  lemma StepXchgAxCx(s: State, env: Env)
    requires Real16(s) && Code8(s) == 0x91
    ensures Step.Step(s, env) == Ok(SetReg16(SetReg16(Behind(s, 1), EAX, Reg16(s, ECX)), ECX, Reg16(s, EAX)))
  {
    hide Code8, Wrap32, InstructionTable, Execute, Real16, Form, Simple, PlainOpcode, Skip, Step.Step, SetReg16,
      Fetched;
    var inst := Op(OpXchg, 0, 0, NONE, ConstReg(Sz1632, EAX), ConstReg(Sz1632, ECX));
    EntryXchg();
    DirectStep(s, env, inst);
    XchgForm(s);
    RunXchg(Instruction(inst, 0, NO_RM, Word16(EAX), Word16(ECX), Behind(s, 1)), env);
  }

  lemma EntryXchg()
    ensures PlainOpcode(0x91)
    ensures var inst := Op(OpXchg, 0, 0, NONE, ConstReg(Sz1632, EAX), ConstReg(Sz1632, ECX));
            InstructionTable(0x91) == inst && Simple(inst) && !UsesModrm(inst)
  {
  }

  lemma XchgForm(s: State)
    requires Real16(s)
    ensures var inst := Op(OpXchg, 0, 0, NONE, ConstReg(Sz1632, EAX), ConstReg(Sz1632, ECX));
            Form(Fetched(s), NO_RM, 0, inst) == Instruction(inst, 0, NO_RM, Word16(EAX), Word16(ECX), Behind(s, 1))
  {
    hide Wrap32, Behind;
    BehindForm(s, 0, Skip(Fetched(s), 0));
  }

  lemma RunXchg(i: Instruction, env: Env)
    requires i.inst.opType.OpXchg? && i.src1 == Word16(EAX) && i.src2 == Word16(ECX)
    ensures Execute(i, env) == Ok(SetReg16(SetReg16(i.s, EAX, Reg16(i.s, ECX)), ECX, Reg16(i.s, EAX)))
  {
    hide SetReg16, Reg16, ReadSource, WriteDest;
    var (a, c) := (Reg16(i.s, EAX), Reg16(i.s, ECX));
    WrapSmall(a);
    WrapSmall(c);
    WordIsShort(i.s, Word16(EAX), EAX, c);
    WordIsShort(i.s, Word16(ECX), ECX, c);
    WordIsShort(SetReg16(i.s, EAX, c), Word16(ECX), ECX, a);
  }

  /** MOV [BX], AX. */
  lemma StepStoreAx(s: State, env: Env)
    requires Real16(s) && Code8(s) == 0x89 && Code8(Skip(s, 1)) == 0x07
    ensures Step.Step(s, env) == Ok(Behind(s, 2).(mem := Write16(s.mem, Linear(s, DS, Reg16(s, EBX)), Reg16(s, EAX))))
  {
    hide Code8, Wrap32, InstructionTable, Execute, Form, Simple, PlainOpcode, Skip, Step.Step, Fetched, Write16, Linear,
      Reg16;
    var inst := Op(OpMov, 0, USE_MODRM, Rm(Sz1632), RegField(Sz1632), NONE);
    EntryStore();
    FetchedCode(s);
    RealFetched(s);
    var t := Skip(Fetched(s), 1);
    DecodeRmBx(t);
    KeepsRegs(s);
    ModrmStep(s, env, inst, 0x07, Decoded(DMem, Reg16(s, EBX), Sz8, 0), t);
    StoreForm(s);
    RunStore(Instruction(inst, 0, Decoded(DMem, Reg16(s, EBX), Sz16, DS), Word16(EAX), NO_RM, Behind(s, 2)), env,
      Reg16(s, EBX));
  }

  lemma EntryStore()
    ensures PlainOpcode(0x89)
    ensures var inst := Op(OpMov, 0, USE_MODRM, Rm(Sz1632), RegField(Sz1632), NONE);
            InstructionTable(0x89) == inst && Simple(inst) && UsesModrm(inst)
  {
  }

  lemma KeepsRegs(s: State)
    ensures Reg16(Skip(Fetched(s), 1), EBX) == Reg16(s, EBX)
    ensures Reg16(Behind(s, 2), EAX) == Reg16(s, EAX) && forall x :: Linear(Behind(s, 2), DS, x) == Linear(s, DS, x)
  {
  }

  lemma DecodeRmBx(s: State)
    requires !AddrSize32(s)
    ensures DecodeRm(s, 0x07) == Ok((Decoded(DMem, Reg16(s, EBX), Sz8, 0), s))
  {
    hide Code16, Code8, Displacement8;
    var bx := Reg16(s, EBX);
    WrapSmall(bx);
    assert Wrap16(bx) == bx;
  }

  lemma StoreForm(s: State)
    requires Real16(s)
    ensures var inst := Op(OpMov, 0, USE_MODRM, Rm(Sz1632), RegField(Sz1632), NONE);
            Form(Skip(Fetched(s), 1), Decoded(DMem, Reg16(s, EBX), Sz8, 0), 0, inst)
              == Instruction(inst, 0, Decoded(DMem, Reg16(s, EBX), Sz16, DS), Word16(EAX), NO_RM, Behind(s, 2))
  {
    hide Wrap32, Behind, Reg16;
    BehindForm(s, 1, Skip(Fetched(s), 1));
    WrapSmall(Skip(Fetched(s), 1).eip);
    assert Skip(Skip(Fetched(s), 1), 0) == Skip(Fetched(s), 1);
  }

  lemma RunStore(i: Instruction, env: Env, bx: u16)
    requires i.inst.opType.OpMov? && i.dst == Decoded(DMem, bx, Sz16, DS) && i.src1 == Word16(EAX)
    ensures Execute(i, env) == Ok(i.s.(mem := Write16(i.s.mem, Linear(i.s, DS, bx), Reg16(i.s, EAX))))
  {
    hide Write16, Linear;
    WrapSmall(Reg16(i.s, EAX));
  }

  /** CMP r/m16, imm8, opcode 83h with reg field 7: after the step the signed conditions are right, and the unsigned
      ones exactly when the immediate is not negative. */
  lemma StepCompareImm8(s: State, env: Env, modrm: u8, rm: Decoded, t: State, a: u64, imm: u8)
    requires Code8(s) == 0x83 && Code8(Fetched(s)) == modrm && RegOf(modrm) == ALU_CMP && !OpSize32(t)
    requires DecodeRm(Skip(Fetched(s), 1), modrm) == Ok((rm, t)) && (rm.kind.DReg? || rm.kind.DMem?)
    requires Code8(t) == imm && ReadSource(Skip(t, 1), DecodedRm(t, rm, Sz16)) == Ok(a)
    ensures Step.Step(s, env).Ok? && a < TWO16
    ensures DecidesSigned(Step.Step(s, env).value, Signed16(a), Signed8(imm))
    ensures DecidesUnsigned(Step.Step(s, env).value, a, Wrap16(Signed8(imm))) <==> Signed8(imm) >= 0
    ensures JumpCondition(Step.Step(s, env).value, JB) <==> (a < Wrap16(Signed8(imm))) != (Signed8(imm) < 0)
  {
    hide Code8, Wrap32, InstructionTable, Execute, Form, Simple, PlainOpcode, Skip, Step.Step, AluResult, DecodeRm,
      Fetched;
    hide DecidesSigned, DecidesUnsigned, JumpCondition, Signed8, Signed16, ReadSource, OpSize32, Compares;
    var inst := Op(OpAlu, ALU_MULTI, USE_MODRM, Rm(Sz1632), Rm(Sz1632), Operand(KSimm, Sz8, 0));
    Entry83();
    ModrmStep(s, env, inst, modrm, rm, t);
    var (d, b) := (DecodedRm(t, rm, Sz16), Skip(t, 1).(oldEip := Skip(t, 1).eip));
    var i := Instruction(inst, ALU_CMP, d, d, Decoded(DImm, Wrap32(Signed8(imm)), Sz8, 0), b);
    CompareForm(t, rm, inst, imm);
    RunCompare(i, env, a, Wrap32(Signed8(imm)), Skip(t, 1));
    CompareWithSignExtended(b, d, i.src2, a, imm, Execute(i, env).value);
  }

  lemma CompareForm(t: State, rm: Decoded, inst: Op, imm: u8)
    requires !OpSize32(t) && Code8(t) == imm
        && inst == Op(OpAlu, ALU_MULTI, USE_MODRM, Rm(Sz1632), Rm(Sz1632), Operand(KSimm, Sz8, 0))
    ensures Form(t, rm, ALU_CMP, inst)
         == Instruction(inst, ALU_CMP, DecodedRm(t, rm, Sz16), DecodedRm(t, rm, Sz16),
           Decoded(DImm, Wrap32(Signed8(imm)), Sz8, 0),
                        Skip(t, 1).(oldEip := Skip(t, 1).eip))
  {
    hide Code8, OpSize32, Wrap32, Signed8;
  }

  /** The decoded CMP is the comparison the flag laws are about: the destination it names is not written. */
  lemma RunCompare(i: Instruction, env: Env, a: u64, b: u32, r: State)
    requires i.inst.opType.OpAlu? && i.inst.subType == ALU_MULTI && i.reg == ALU_CMP
    requires i.src1.size == Sz16 && (i.src1.kind.DReg? || i.src1.kind.DMem?) && i.src2 == Decoded(DImm, b, Sz8, 0)
    requires i.s == r.(oldEip := r.eip) && ReadSource(r, i.src1) == Ok(a)
    ensures a < TWO16 && Execute(i, env).Ok? && Compares(i.s, i.src1, i.src2, a, b, Execute(i, env).value)
  {
    hide DoAlu, ReadSource;
    SameRead(i.s, r, i.src1, a);
    ImmediateRead(i.s, b);
    GroupCompare(i.s, i.dst, i.src1, i.src2, a, b);
  }

  lemma SameRead(s: State, t: State, d: Decoded, a: u64)
    requires s == t.(oldEip := t.eip) && ReadSource(t, d) == Ok(a) && d.size == Sz16 && (d.kind.DReg? || d.kind.DMem?)
    ensures ReadSource(s, d) == Ok(a) && a < TWO16
  {
    hide Read16, Low16;
  }

  lemma ImmediateRead(s: State, b: u32)
    ensures ReadSource(s, Decoded(DImm, b, Sz8, 0)) == Ok(b)
  {
  }

  lemma GroupCompare(s: State, dst: Decoded, src1: Decoded, src2: Decoded, a: u32, b: u32)
    requires ReadSource(s, src1) == Ok(a) && ReadSource(s, src2) == Ok(b) && src1.size == Sz16
    ensures DoAlu(s, ALU_MULTI, dst, src1, src2, ALU_CMP) == DoAlu(s, ALU_CMP, NO_RM, src1, src2, 0)
    ensures DoAlu(s, ALU_CMP, NO_RM, src1, src2, 0).Ok?
  {
    hide ReadSource, WriteDest, SubFlags;
    WrapSmall(a);
    WrapSmall(b);
  }
}
