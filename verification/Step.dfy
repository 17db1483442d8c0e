/** Decoding and one step of the interpreter: `i386_step` with its recursive prefix handling. */
module Step {
  import opened Words
  import opened I386
  import opened Machine

  // ----- Instruction bytes -----

  function CodeAddress(s: State): u32 { Linear(s, CS, s.eip) }

  function Code8(s: State): u8 { Read8(s.mem, CodeAddress(s)) }
  function Code16(s: State): u16 { Read16(s.mem, CodeAddress(s)) }
  function Code32(s: State): u32 { Read32(s.mem, CodeAddress(s)) }

  function Skip(s: State, n: nat): State { s.(eip := Wrap32(s.eip + n)) }

  // ----- ModR/M -----

  const NO_RM := Decoded(DNone, 0, Sz8, 0)

  function RmMem(offset: int, sr: SegIndex): Decoded { Decoded(DMem, Wrap32(offset), Sz8, sr) }

  /** An `sr` of 0 means "no default of its own": the current data segment is used. */
  function Displacement8(s: State): int { Signed8(Code8(s)) }

  function DecodeRm16(s: State, modrm: u8): (Decoded, State)
  {
    var (mod, rm) := (ModField(modrm), RmOf(modrm));
    if mod == 3 then (Decoded(DReg, rm, Sz8, 0), s)
    else
      var (bx, bp, si, di) := (Reg16(s, EBX), Reg16(s, EBP), Reg16(s, ESI), Reg16(s, EDI));
      var direct := rm == 6 && mod == 0;
      var base := match rm
        case 0 => bx + si
        case 1 => bx + di
        case 2 => bp + si
        case 3 => bp + di
        case 4 => si
        case 5 => di
        case 6 => if direct then Code16(s) else bp
        case _ => bx;
      var t := if direct then Skip(s, 2) else s;
      var sr: SegIndex := if rm == 2 || rm == 3 || (rm == 6 && !direct) then SS else 0;
      if mod == 1 then (RmMem(Wrap16(base + Displacement8(t)), sr), Skip(t, 1))
      else if mod == 2 then (RmMem(Wrap16(base + Code16(t)), sr), Skip(t, 2))
      else (RmMem(Wrap16(base), sr), t)
  }

  /** The offset a SIB byte gives and its default segment. A scale field of 2 or 3 is read through a signed
      char, so the shift count is negative. */
  function DecodeSib(s: State, mod: nat): Result<(int, SegIndex, State)>
  {
    var sib := Code8(s);
    var t := Skip(s, 1);
    var (scale, index, base) := (ModField(sib), RegOf(sib), RmOf(sib));
    var direct := base == 5 && mod == 0;
    var offset := if direct then Code32(t) else t.regs[base];
    var sr: SegIndex := if !direct && (base == 5 || base == 4) then SS else 0;
    var u := if direct then Skip(t, 4) else t;
    if index == 4 then Ok((offset, sr, u))
    else if scale >= 2 then Halted(HostUndefined)
    else Ok((offset as int + u.regs[index] as int * (if scale == 1 then 2 else 1), sr, u))
  }

  function RmBase32(s: State, mod: nat, rm: RegIndex): Result<(int, SegIndex, State)>
  {
    if rm == 4 then DecodeSib(s, mod)
    else if rm == 5 && mod == 0 then Ok((Code32(s), 0, Skip(s, 4)))
    else Ok((s.regs[rm], if rm == 5 then SS else 0, s))
  }

  function DecodeRm32(s: State, modrm: u8): Result<(Decoded, State)>
  {
    var (mod, rm) := (ModField(modrm), RmOf(modrm));
    if mod == 3 then Ok((Decoded(DReg, rm, Sz8, 0), s))
    else
      var (offset, sr, t) :- RmBase32(s, mod, rm);
      if mod == 1 then Ok((RmMem(offset + Displacement8(t), sr), Skip(t, 1)))
      else if mod == 2 then Ok((RmMem(offset + Code32(t), sr), Skip(t, 4)))
      else Ok((RmMem(offset, sr), t))
  }

  function DecodeRm(s: State, modrm: u8): Result<(Decoded, State)>
  {
    if AddrSize32(s) then DecodeRm32(s, modrm) else Ok(DecodeRm16(s, modrm))
  }

  // ----- Operands -----

  /** The size a conditional size stands for. */
  function ActualSize(size: Size, wide: bool): Size
  {
    match size
    case Sz1632 => if wide then Sz32 else Sz16
    case Sz816 => if wide then Sz16 else Sz8
    case Sz3248 => if wide then Sz48 else Sz32
    case Sz3264 => if wide then Sz64 else Sz32
    case _ => size
  }

  /** Bytes an immediate of a given size takes; the other sizes read nothing. */
  function ImmBytes(size: Size): nat
  {
    match size
    case Sz8 => 1
    case Sz16 => 2
    case Sz32 => 4
    case _ => 0
  }

  function ImmValue(s: State, size: Size): u32
  {
    match size
    case Sz8 => Code8(s)
    case Sz16 => Code16(s)
    case Sz32 => Code32(s)
    case _ => 0
  }

  function SignedImm(s: State, size: Size): u32
  {
    match size
    case Sz8 => Wrap32(Signed8(Code8(s)))
    case Sz16 => Wrap32(Signed16(Code16(s)))
    case _ => ImmValue(s, size)
  }

  function DecodeOperand(s: State, rm: Decoded, reg: RegIndex, op: Operand): Result<(Decoded, State)>
  {
    var size := ActualSize(op.size, OpSize32(s));
    match op.kind
    case KNone => Ok((Decoded(DNone, 0, op.size, 0), s))
    case KOffset =>
      if AddrSize32(s) then Ok((Decoded(DMem, Code32(s), size, s.sgmtOverride), Skip(s, 4)))
      else Ok((Decoded(DMem, Code16(s), size, s.sgmtOverride), Skip(s, 2)))
    case KMemModrm => if rm.kind.DMem? then Ok((DecodedRm(s, rm, size), s)) else Halted(Spin)
    case KRmModrm => Ok((DecodedRm(s, rm, size), s))
    case KRegModrm => Ok((Decoded(DReg, reg, size, 0), s))
    case KCregModrm => Ok((Decoded(DCtrlReg, reg, size, 0), s))
    case KSegRegModrm => Ok((Decoded(DSegReg, reg, size, 0), s))
    case KConstReg => Ok((Decoded(DReg, op.value, size, 0), s))
    case KConstSegReg => Ok((Decoded(DSegReg, op.value, size, 0), s))
    case KSimm => Ok((Decoded(DImm, SignedImm(s, size), size, 0), Skip(s, ImmBytes(size))))
    case KImm => Ok((Decoded(DImm, ImmValue(s, size), size, 0), Skip(s, ImmBytes(size))))
    case KFarPtr => Ok((Decoded(DImm, ImmValue(s, size), size, 0), Skip(s, ImmBytes(size))))
    case KConstant => Ok((Decoded(DImm, op.value, size, 0), s))
    case KEdxEax => Ok((Decoded(DEdxEax, 0, size, 0), s))
    case KIpRel =>
      var t := Skip(s, ImmBytes(size));
      Ok((Decoded(DImm, Wrap32(t.eip + SignedImm(s, size)), size, 0), t))
  }

  /** A ModR/M operand's segment: an override wins over the addressing form's default, and that over the
      current data segment. */
  function DecodedRm(s: State, rm: Decoded, size: Size): Decoded
  {
    Decoded(rm.kind, rm.id, size, if s.overridingSgmt || rm.sr == 0 then s.sgmtOverride else rm.sr)
  }

  // ----- Entries whose operation is in the reg field -----

  function FixupF6(inst: Op, reg: RegIndex): Op
  {
    var size := inst.src1.size;
    var op := match reg
      case 0 => inst.(dest := inst.dest.(kind := KNone), src1 := Rm(size), src2 := Imm(size))
      case 2 | 3 => inst.(dest := Rm(size), src1 := Rm(size), src2 := inst.src2.(kind := KNone))
      case 4 | 5 =>
        inst.(dest := ConstReg(size, EAX), src1 := ConstReg(size, EAX), src2 := Rm(size), flags := WRITE_DX)
      case 6 | 7 =>
        var dividend := if size == Sz8 then ConstReg(Sz16, EAX) else Operand(KEdxEax, Sz3264, inst.src1.value);
        inst.(dest := ConstReg(size, EAX), src1 := dividend, src2 := Rm(size), flags := WRITE_DX)
      case _ => inst;
    op.(subType := reg)
  }

  function FixupFF(inst: Op, reg: RegIndex): Result<Op>
  {
    match reg
    case 0 => Ok(inst.(opType := OpIncDec, subType := ID_INC))
    case 1 => Ok(inst.(opType := OpIncDec, subType := ID_DEC))
    case 2 => Ok(inst.(opType := OpCallNear))
    case 4 => Ok(inst.(opType := OpJump, subType := ALWAYS))
    case 6 => Ok(inst.(opType := OpPush))
    case 7 => Ok(inst)
    case _ => Halted(Spin)
  }

  function Fixup(inst: Op, reg: RegIndex): Result<Op>
  {
    if inst.opType.OpAluSpecial? && inst.subType == ALU_MULTI && inst.flags / WEIRD % 2 == 1
    then Ok(FixupF6(inst, reg))
    else if inst.opType.OpMultiplexedFF? then FixupFF(inst, reg)
    else Ok(inst)
  }

  // ----- One instruction -----

  /** A fully decoded instruction and the state just before it executes. */
  datatype Instruction = Instruction(inst: Op, reg: RegIndex, dst: Decoded, src1: Decoded, src2: Decoded, s: State)

  function DecodeModrm(s: State, inst: Op): Result<(RegIndex, Decoded, State)>
  {
    if !UsesModrm(inst) then Ok((0, NO_RM, s))
    else
      var modrm := Code8(s);
      var (rm, t) :- DecodeRm(Skip(s, 1), modrm);
      Ok((RegOf(modrm), rm, t))
  }

  function DecodeOperands(s: State, rm: Decoded, reg: RegIndex, inst: Op): Result<Instruction>
  {
    var (dst, s1) :- DecodeOperand(s, rm, reg, inst.dest);
    var (src1, s2) :- DecodeOperand(s1, rm, reg, inst.src1);
    var (src2, s3) :- DecodeOperand(s2, rm, reg, inst.src2);
    Ok(Instruction(inst, reg, dst, src1, src2, s3.(oldEip := s3.eip)))
  }

  /** Everything between the opcode byte and the execution switch. */
  function Decode(s: State, inst: Op): Result<Instruction>
  {
    var (reg, rm, t) :- DecodeModrm(s, inst);
    var fixed :- Fixup(inst, reg);
    DecodeOperands(t, rm, reg, fixed)
  }

  function Execute(i: Instruction, env: Env): Result<State>
  {
    var (s, dst, src1, src2, sub) := (i.s, i.dst, i.src1, i.src2, i.inst.subType);
    match i.inst.opType
    case OpEnter => DoEnter(s, src1)
    case OpLeave => Ok(DoLeave(s))
    case OpAlu => DoAlu(s, sub, dst, src1, src2, i.reg)
    case OpAluSpecial => DoAluSpecial(s, sub, dst, src1, src2, i.inst.flags)
    case OpShift => DoShift(s, i.reg, dst, src1, src2)
    case OpPush => DoPush(s, src1)
    case OpPop => DoPop(s, dst)
    case OpPopSr => DoPopSr(s, dst)
    case OpLea => WriteDest(s, dst, src1.id)
    case OpMov => DoMov(s, dst, src1)
    case OpMovToSr => DoMovToSr(s, dst, src1)
    case OpCallNear => DoCallNear(s, src1)
    case OpRetNear => DoRetNear(s, src1)
    case OpJump => DoJump(s, src1, sub)
    case OpClearFlag => if sub < 32 then Ok(s.(eflags := s.eflags[sub := false])) else Halted(HostUndefined)
    case OpSetFlag => if sub < 32 then Ok(s.(eflags := s.eflags[sub := true])) else Halted(HostUndefined)
    case OpIncDec => DoIncDec(s, sub, dst, src1)
    case OpInt => DoInt(s, src1, env)
    case OpString => DoString(s, sub, i.inst.flags)
    case OpRepez => DoRepString(s, sub, i.inst.flags, false)
    case OpRepne => DoRepString(s, sub, i.inst.flags, true)
    case OpCbwCwde => DoCbwCwde(s, dst, src1)
    case OpCwdCdq => DoCwdCdq(s, dst, src1)
    case OpXchg => DoXchg(s, src1, src2)
    case OpIn => DoIn(s, dst, src1, env)
    case OpLoop => DoLoop(s, sub, src1)
    case OpPushf => Ok(DoPushf(s))
    case OpPopf => Ok(DoPopf(s))
    case OpXlat => Ok(DoXlat(s))
    case OpSahf => Ok(DoSahf(s))
    case OpLahf => Ok(DoLahf(s))
    case OpCmc => Ok(s.(eflags := s.eflags[CARRY := !s.eflags[CARRY]]))
    case OpPusha => Ok(DoPusha(s))
    case OpPopa => Ok(DoPopa(s))
    case _ => Halted(Spin)
  }

  /** The entry an opcode byte selects: 0F takes the extended table; REP and REPNE keep their own operation
      and take everything else from the entry of the byte that follows. */
  function SelectEntry(s: State, opcode: u8): (Op, State)
  {
    var inst := InstructionTable(opcode);
    if inst.opType.OpExtended? then (ExtendedInstructionTable(Code8(s)), Skip(s, 1))
    else if inst.opType.OpRepez? || inst.opType.OpRepne? then
      (InstructionTable(Code8(s)).(opType := inst.opType), Skip(s, 1))
    else (inst, s)
  }

  /** The instruction whose opcode byte, just fetched, is no prefix. */
  function RunBare(s: State, opcode: u8, env: Env): Result<State>
  {
    var (inst, t) := SelectEntry(s, opcode);
    var i :- Decode(t, inst);
    Execute(i, env)
  }

  /** `i386_step`. Each prefix byte costs one level of recursion; EIP wraps after 2^32 of them, so a run of
      prefixes longer than that never ends. */
  function StepWithin(s: State, env: Env, levels: nat): Result<State>
    decreases levels, s
  {
    var opcode := Code8(s);
    var inst := InstructionTable(opcode);
    var t := Skip(s, 1).(stepsRun := s.stepsRun + 1);
    if !IsPrefix(opcode) then RunBare(t, opcode, env)
    else if levels == 0 then Halted(EndlessPrefixes)
    else if inst.opType.OpLock? then StepWithin(t.(stepsRun := t.stepsRun - 1), env, levels - 1)
    else if inst.opType.OpSizeOverride? then
      var r :- StepWithin(t.(opOverride := true), env, levels - 1);
      Ok(r.(opOverride := false, stepsRun := r.stepsRun - 1))
    else if inst.opType.OpAddrOverride? then
      var r :- StepWithin(t.(addrOverride := true), env, levels - 1);
      Ok(r.(addrOverride := false, stepsRun := r.stepsRun - 1))
    else
      var r :- StepWithin(t.(overridingSgmt := true, sgmtOverride := OverrideSegment(inst)), env, levels - 1);
      Ok(r.(overridingSgmt := false, sgmtOverride := DS, stepsRun := r.stepsRun - 1))
  }

  function OverrideSegment(inst: Op): SegIndex { if inst.subType < 6 then inst.subType else 0 }

  function Step(s: State, env: Env): Result<State> { StepWithin(s, env, TWO32) }

  /** `n` successive steps lead from `s` to `t`. */
  ghost predicate Steps(s: State, t: State, env: Env, n: nat)
    decreases n, s
  {
    if n == 0 then s == t else exists u :: Step(s, env) == Ok(u) && Steps(u, t, env, n - 1)
  }

  /** Some run leads from `s` to `t`. */
  ghost predicate Reaches(s: State, t: State, env: Env) { exists n :: Steps(s, t, env, n) }

  lemma OneStep(s: State, t: State, env: Env)
    requires Step(s, env) == Ok(t)
    ensures Steps(s, t, env, 1)
  {
    hide Step;
    assert Steps(t, t, env, 0);
  }

  lemma {:induction false} StepsCompose(s: State, t: State, u: State, env: Env, m: nat, n: nat)
    requires Steps(s, t, env, m) && Steps(t, u, env, n)
    ensures Steps(s, u, env, m + n)
    decreases m
  {
    hide Step;
    if m > 0 {
      var v :| Step(s, env) == Ok(v) && Steps(v, t, env, m - 1);
      StepsCompose(v, t, u, env, m - 1, n);
    }
  }

  lemma ReachesCompose(s: State, t: State, u: State, env: Env)
    requires Reaches(s, t, env) && Reaches(t, u, env)
    ensures Reaches(s, u, env)
  {
    hide Step, Steps;
    var m :| Steps(s, t, env, m);
    var n :| Steps(t, u, env, n);
    StepsCompose(s, t, u, env, m, n);
  }
}
