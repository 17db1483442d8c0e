/** Whole instructions that transfer control or change single flags, behind any prefixes. */
module BranchSteps {
  import opened Words
  import opened I386
  import opened Machine
  import opened Step
  import opened RunInvariants
  import opened Disassembler
  import opened Instructions
  import opened FlagLaws
  import opened Places
  import opened Texts
  import opened MoveSteps
  import opened StackSteps
  import opened AluSteps

  /** Behind an operation whose flags are those of `z`: the conditions on sign, zero and parity read its top bit,
      whether it is zero at the size, and the ones of its low byte. */
  lemma ConditionsOfResult(t: State, z: int, size: Size)
    requires ResultFlags(z, size, t.eflags)
    ensures JumpCondition(t, JS) <==> z % Limit(size) >= Limit(size) / 2
    ensures JumpCondition(t, JNS) <==> z % Limit(size) < Limit(size) / 2
    ensures JumpCondition(t, JE) <==> z % Limit(size) == 0
    ensures JumpCondition(t, JNE) <==> z % Limit(size) != 0
    ensures JumpCondition(t, JP) <==> Ones(BitsOf(z % TWO8, 8)) % 2 == 0
    ensures JumpCondition(t, JNP) <==> Ones(BitsOf(z % TWO8, 8)) % 2 == 1
  {
    hide Limit, Ones, BitsOf;
  }

  /** The place `n` bytes behind the opcode, plus those bytes as a signed number. */
  function Target(s: State, ps: seq<u8>, rest: seq<u8>, n: nat): u32
    requires n <= |rest|
  {
    (s.eip + |ps| + 1 + n + SignedNumber(rest[..n])) % TWO32
  }

  lemma RunJumpTo(i: Instruction, env: Env, target: u32)
    requires i.inst.opType.OpJump? && ReadSource(i.s, i.src1) == Ok(target)
    ensures Execute(i, env) == Ok(if JumpCondition(i.s, i.inst.subType) then i.s.(eip := target) else i.s)
  {
    hide ReadSource, JumpCondition;
    WrapSmall(target);
  }

  lemma EipLands(s: State, ps: seq<u8>, n: nat, target: u32)
    requires NothingPending(s)
    ensures Finished(s, Ok(Executing(s, ps, n).(eip := target))) == Ok(Behind(s, |ps| + 1 + n).(eip := target))
    ensures Finished(s, Ok(Executing(s, ps, n))) == Ok(Behind(s, |ps| + 1 + n))
  {
    hide Executing, Behind, Finished;
    ExecutingIs(s, ps, n);
    var (e, b) := (Executing(s, ps, n), Behind(s, |ps| + 1 + n));
    ChangeLands(s, ps, n, e.(eip := target), b.(eip := target));
    ChangeLands(s, ps, n, e, b);
  }

  // ----- Jumps -----

  /** The jump opcodes with their condition: sixteen on flags, JCXZ, and two that always jump. */
  function ConditionOf(opcode: u8): nat
  {
    if 0x70 <= opcode <= 0x7F then opcode - 0x70 else if opcode == 0xE3 then JCXZ else ALWAYS
  }

  predicate JumpOpcode(opcode: u8) { 0x70 <= opcode <= 0x7F || opcode == 0xE3 || opcode == 0xE9 || opcode == 0xEB }

  function JumpEntry(opcode: u8): Op
  {
    Op(OpJump, ConditionOf(opcode), 0, NONE, IpRel(if opcode == 0xE9 then Sz1632 else Sz8), NONE)
  }

  lemma JumpRow(opcode: u8)
    requires JumpOpcode(opcode)
    ensures InstructionTable(opcode) == JumpEntry(opcode) && PlainOpcode(opcode)
    ensures Fixup(JumpEntry(opcode), 0) == Ok(JumpEntry(opcode))
  {
  }

  /** Whether the jump is taken; JCXZ reads CX or ECX by the operand size. */
  predicate Taken(s: State, ps: seq<u8>, opcode: u8)
    requires JumpOpcode(opcode)
  {
    if opcode == 0xE3 then Contents(s, Register(ECX, OperandBytes(s, ps, Sz1632))) == 0
    else opcode > 0x7F || JumpCondition(s, opcode - 0x70)
  }

  /** Jcc, JCXZ and JMP with a displacement. */
  lemma StepJumpText(s: State, ps: seq<u8>, opcode: u8, rest: seq<u8>, env: Env)
    requires At(s, ps, opcode, rest) && JumpOpcode(opcode)
    requires OperandBytes(s, ps, if opcode == 0xE9 then Sz1632 else Sz8) <= |rest|
    ensures var n := OperandBytes(s, ps, if opcode == 0xE9 then Sz1632 else Sz8);
            var b := Behind(s, |ps| + 1 + n);
            Step.Step(s, env) == Ok(if Taken(s, ps, opcode) then b.(eip := Target(s, ps, rest, n)) else b)
  {
    hide CodeIs, Step.Step, Execute, InstructionTable, Behind, Finished, Fixup, PlainOpcode, Executing, PlaceOf;
    hide SignedNumber, JumpCondition, Taken;
    JumpRow(opcode);
    var i := StepPlainText(s, ps, opcode, rest, env, JumpEntry(opcode));
    var n := OperandBytes(s, ps, if opcode == 0xE9 then Sz1632 else Sz8);
    assert rest[0..0 + n] == rest[..n];
    ExecutingIs(s, ps, n);
    ReadsSource(s, i.s, i.src1, Value(Target(s, ps, rest, n)));
    RunJumpTo(i, env, Target(s, ps, rest, n));
    TakenIs(s, ps, opcode, n);
    EipLands(s, ps, n, Target(s, ps, rest, n));
  }

  lemma TakenIs(s: State, ps: seq<u8>, opcode: u8, n: nat)
    requires NothingPending(s) && JumpOpcode(opcode)
    ensures Taken(s, ps, opcode) == JumpCondition(Executing(s, ps, n), ConditionOf(opcode))
  {
    hide Wrap32, OverridesSegment, LastSegment, Counted;
  }

  /** JMP to a ModR/M operand, FE and FF with reg field 4. */
  lemma StepJumpRm(s: State, ps: seq<u8>, opcode: u8, rest: seq<u8>, env: Env)
    requires At(s, ps, opcode, rest) && 0xFE <= opcode <= 0xFF && HasRm(s, ps, rest) && RegOf(rest[0]) == 4
    ensures var rm := RmPlace(s, ps, rest, OperandBytes(s, ps, ByteOrWord(opcode)));
            && IsPlace(s.mem, rm)
            && Step.Step(s, env) ==
                 if !RmDecodes(s, ps, rest) then Halted(HostUndefined)
                 else Ok(Behind(s, |ps| + 1 + RmBytes(s, ps, rest)).(eip := Wrap32(Contents(s, rm))))
  {
    hide CodeIs, Step.Step, Execute, InstructionTable, Behind, Finished, Fixup, PlainOpcode, Executing, PlaceOf;
    hide RmDecodes, Contents, RmBytes, RmPlace, TextAddress;
    GroupRows(opcode);
    RmIsPlace(s, ps, rest, OperandBytes(s, ps, ByteOrWord(opcode)));
    var i := StepModrmText(s, ps, opcode, rest, env, CountGroup(opcode, OpJump, ALWAYS));
    if RmDecodes(s, ps, rest) {
      var (rm, m) := (RmPlace(s, ps, rest, OperandBytes(s, ps, ByteOrWord(opcode))), RmBytes(s, ps, rest));
      ExecutingIs(s, ps, m);
      ReadsSource(s, i.s, i.src1, Held(rm));
      RunJumpTo(i, env, Contents(s, rm));
      EipLands(s, ps, m, Contents(s, rm));
    }
  }

  // ----- LOOP -----

  function LoopEntry(opcode: u8): Op
  {
    var kind := if opcode == 0xE0 then LOOPNE else if opcode == 0xE1 then LOOPE else LOOP_NORMAL;
    Op(OpLoop, kind, 0, NONE, IpRel(Sz8), NONE)
  }

  lemma LoopRow(opcode: u8)
    requires 0xE0 <= opcode <= 0xE2
    ensures InstructionTable(opcode) == LoopEntry(opcode) && PlainOpcode(opcode)
    ensures Fixup(LoopEntry(opcode), 0) == Ok(LoopEntry(opcode))
  {
  }

  /** LOOPNE, LOOPE and LOOP: ECX counts down, all 32 bits of it; the jump is taken while it is not zero and, for the
      first two, while ZF is clear or set. */
  lemma StepLoop(s: State, ps: seq<u8>, opcode: u8, rest: seq<u8>, env: Env)
    requires At(s, ps, opcode, rest) && 0xE0 <= opcode <= 0xE2 && |rest| >= 1
    ensures var b := Assigned(Behind(s, |ps| + 2), Whole(ECX), s.regs[ECX] as int - 1);
            var taken := s.regs[ECX] != 1 && (opcode == 0xE0 ==> !s.eflags[ZERO])
              && (opcode == 0xE1 ==> s.eflags[ZERO]);
            Step.Step(s, env) == Ok(if taken then b.(eip := Target(s, ps, rest, 1)) else b)
  {
    hide CodeIs, Step.Step, Execute, InstructionTable, Behind, Finished, Fixup, PlainOpcode, Executing, PlaceOf;
    hide SignedNumber;
    LoopRow(opcode);
    var i := StepPlainText(s, ps, opcode, rest, env, LoopEntry(opcode));
    assert rest[0..0 + 1] == rest[..1];
    var target := Target(s, ps, rest, 1);
    ExecutingIs(s, ps, 1);
    ReadsSource(s, i.s, i.src1, Value(target));
    RunLoop(i, env, target);
    var (e, b) := (i.s, Behind(s, |ps| + 2));
    var (t, u) := (OneLess(e), OneLess(b));
    ChangeLands(s, ps, 1, t, u);
    ChangeLands(s, ps, 1, t.(eip := target), u.(eip := target));
  }

  function OneLess(s: State): State { Assigned(s, Whole(ECX), s.regs[ECX] as int - 1) }

  lemma RunLoop(i: Instruction, env: Env, target: u32)
    requires i.inst.opType.OpLoop? && i.inst.subType <= LOOPNE && ReadSource(i.s, i.src1) == Ok(target)
    ensures var taken := i.s.regs[ECX] != 1 && (i.inst.subType == LOOPNE ==> !i.s.eflags[ZERO])
                         && (i.inst.subType == LOOPE ==> i.s.eflags[ZERO]);
            Execute(i, env) == Ok(if taken then OneLess(i.s).(eip := target) else OneLess(i.s))
  {
    hide ReadSource;
    WrapSmall(target);
  }

  // ----- CALL with a displacement -----

  const CALL_NEAR := Op(OpCallNear, 0, 0, NONE, IpRel(Sz1632), NONE)

  lemma CallRow()
    ensures InstructionTable(0xE8) == CALL_NEAR && PlainOpcode(0xE8) && Fixup(CALL_NEAR, 0) == Ok(CALL_NEAR)
  {
  }

  /** CALL, E8: the address behind it is pushed. */
  lemma StepCallText(s: State, ps: seq<u8>, rest: seq<u8>, env: Env)
    requires At(s, ps, 0xE8, rest) && OperandBytes(s, ps, Sz1632) <= |rest|
    ensures var n := OperandBytes(s, ps, Sz1632);
            var b := Behind(s, |ps| + 1 + n);
            Step.Step(s, env) == Ok(Pushed(b, b.eip).(eip := Target(s, ps, rest, n)))
  {
    hide CodeIs, Step.Step, Execute, InstructionTable, Behind, Finished, Fixup, PlainOpcode, Executing, PlaceOf;
    hide SignedNumber, Pushed, SameChange, Target, TextOperand;
    CallRow();
    var i := StepPlainText(s, ps, 0xE8, rest, env, CALL_NEAR);
    var n := OperandBytes(s, ps, Sz1632);
    assert rest[0..0 + n] == rest[..n];
    var target := Target(s, ps, rest, n);
    CallTarget(s, ps, rest, n);
    var (e, b) := (i.s, Behind(s, |ps| + 1 + n));
    PushedChange(s, ps, n, e.eip);
    ReadsTarget(Pushed(e, e.eip), i.src1, target);
    RunCallTo(i, env, target);
    EipChange(e, Pushed(e, e.eip), b, Pushed(b, b.eip), target);
    ChangeLands(s, ps, n, Pushed(e, e.eip).(eip := target), Pushed(b, b.eip).(eip := target));
  }

  lemma EipChange(e: State, t: State, b: State, u: State, target: u32)
    requires SameChange(e, t, b, u)
    ensures SameChange(e, t.(eip := target), b, u.(eip := target))
  {
  }

  lemma CallTarget(s: State, ps: seq<u8>, rest: seq<u8>, n: nat)
    requires n == OperandBytes(s, ps, Sz1632) <= |rest|
    ensures TextBytes(s, ps, CALL_NEAR.src1) == n
    ensures TextOperand(s, ps, rest, 0, 0, CALL_NEAR.src1) == Value(Target(s, ps, rest, n))
  {
    hide SignedNumber;
    assert rest[0..0 + n] == rest[..n];
  }

  lemma ReadsTarget(t: State, d: Decoded, v: u32)
    requires d.kind.DImm? && d.id == v
    ensures ReadSource(t, d) == Ok(v)
  {
  }

  // ----- Single flags -----

  /** CMC, CLC, STC, CLI, STI, CLD and STD. */
  lemma StepFlag(s: State, ps: seq<u8>, opcode: u8, rest: seq<u8>, env: Env)
    requires At(s, ps, opcode, rest) && (opcode == 0xF5 || 0xF8 <= opcode <= 0xFD)
    ensures var flag := if opcode < 0xFA then CARRY else if opcode < 0xFC then INTERRUPT else DIRECTION;
            Step.Step(s, env) ==
              Ok(Behind(s, |ps| + 1).(eflags := s.eflags[flag := if opcode == 0xF5 then !s.eflags[CARRY]
                                                                 else opcode % 2 == 1]))
  {
    hide CodeIs, Step.Step, InstructionTable, Behind, Finished, Fixup, PlainOpcode, Executing, LastSegment, Execute;
    FlagRow(opcode);
    var i := StepPlain(s, ps, opcode, rest, env, FlagEntry(opcode));
    ExecutingKeeps(s, ps, 0);
    RunFlag(i, env, opcode);
    FlagsLand(s, ps, 0, Execute(i, env).value);
  }

  function FlagEntry(opcode: u8): Op
  {
    if opcode == 0xF5 then Plain(OpCmc, 0)
    else
      Plain(if opcode % 2 == 0 then OpClearFlag else OpSetFlag,
            if opcode < 0xFA then CARRY else if opcode < 0xFC then INTERRUPT else DIRECTION)
  }

  lemma FlagRow(opcode: u8)
    requires opcode == 0xF5 || 0xF8 <= opcode <= 0xFD
    ensures InstructionTable(opcode) == FlagEntry(opcode) && PlainOpcode(opcode)
    ensures Fixup(FlagEntry(opcode), 0) == Ok(FlagEntry(opcode)) && !UsesModrm(FlagEntry(opcode))
  {
  }

  lemma RunFlag(i: Instruction, env: Env, opcode: u8)
    requires (opcode == 0xF5 || 0xF8 <= opcode <= 0xFD) && i.inst == FlagEntry(opcode)
    ensures var flag := if opcode < 0xFA then CARRY else if opcode < 0xFC then INTERRUPT else DIRECTION;
            Execute(i, env) == Ok(i.s.(eflags := i.s.eflags[flag := if opcode == 0xF5 then !i.s.eflags[CARRY]
                                                                    else opcode % 2 == 1]))
  {
  }

  // ----- What has no operation -----

  /** The opcodes without a ModR/M byte that the interpreter does not implement: DAA, DAS, AAA, AAS, INS, OUTS, far
      returns, IRET, OUT, HLT and the undefined ones. */
  predicate Unimplemented(opcode: u8)
  {
    || opcode in {0x27, 0x2F, 0x37, 0x3F, 0x62, 0x63, 0x6C, 0x6D, 0x6E, 0x6F, 0x9B, 0xCA, 0xCB, 0xCE, 0xCF, 0xD4, 0xD5,
      0xD6}
    || 0xD8 <= opcode <= 0xDF || opcode in {0xE6, 0xE7, 0xEE, 0xEF, 0xF1, 0xF4}
  }

  predicate Idle(inst: Op)
  {
    && !UsesModrm(inst) && !NamesRm(inst) && Fixup(inst, 0) == Ok(inst)
    && InlineOperands(inst) && PlainOperand(inst.dest) && PlainOperand(inst.src1) && PlainOperand(inst.src2)
    && (inst.opType in {OpUnary, OpRetFar, OpIret, OpOut, OpInvalid}
        || (inst.opType.OpString? && inst.subType in {INS, OUTS}))
  }

  lemma UnimplementedRow(opcode: u8)
    requires Unimplemented(opcode)
    ensures Idle(InstructionTable(opcode)) && PlainOpcode(opcode)
  {
    hide Idle, Rows00To3F, Rows40To7F, Rows80ToBF, RowsC0ToFF;
    if opcode < 0x40 { Idle0(opcode); } else if opcode < 0x80 { Idle4(opcode); }
    else if opcode < 0xC0 { Idle8(); } else if opcode < 0xE0 { IdleC(opcode); } else { IdleE(opcode); }
    PrefixBytes(opcode);
    IdleIsPlain(InstructionTable(opcode));
  }

  lemma IdleIsPlain(inst: Op)
    requires Idle(inst)
    ensures !inst.opType.OpExtended? && !inst.opType.OpRepez? && !inst.opType.OpRepne?
  {
  }

  lemma Idle0(opcode: u8)
    requires opcode in {0x27, 0x2F, 0x37, 0x3F}
    ensures Idle(Rows00To3F(opcode))
  {
  }

  lemma Idle4(opcode: u8)
    requires opcode in {0x62, 0x63, 0x6C, 0x6D, 0x6E, 0x6F}
    ensures Idle(Rows40To7F(opcode))
  {
  }

  lemma Idle8()
    ensures Idle(Rows80ToBF(0x9B))
  {
  }

  lemma IdleC(opcode: u8)
    requires opcode in {0xCA, 0xCB, 0xCE, 0xCF, 0xD4, 0xD5, 0xD6} || 0xD8 <= opcode <= 0xDF
    ensures Idle(RowsC0ToFF(opcode))
  {
  }

  lemma IdleE(opcode: u8)
    requires opcode in {0xE6, 0xE7, 0xEE, 0xEF, 0xF1, 0xF4}
    ensures Idle(RowsC0ToFF(opcode))
  {
  }

  /** They spin. */
  lemma StepSpins(s: State, ps: seq<u8>, opcode: u8, rest: seq<u8>, env: Env)
    requires At(s, ps, opcode, rest) && Unimplemented(opcode) && |rest| >= 4
    ensures Step.Step(s, env) == Halted(Spin)
  {
    hide CodeIs, Step.Step, Execute, InstructionTable, Behind, Fixup, PlainOpcode, Executing, PlainOperand,
      Unimplemented;
    hide DecodedAs, InlineOperands;
    UnimplementedRow(opcode);
    var inst := InstructionTable(opcode);
    FewBytes(s, ps, inst);
    var i := StepPlainText(s, ps, opcode, rest, env, inst);
    InstOf(s, ps, rest, inst, i);
    RunsForever(i, env);
  }

  lemma FewBytes(s: State, ps: seq<u8>, inst: Op)
    requires InlineOperands(inst) && PlainOperand(inst.dest) && PlainOperand(inst.src1) && PlainOperand(inst.src2)
    ensures TextBytes(s, ps, inst.dest) + TextBytes(s, ps, inst.src1) + TextBytes(s, ps, inst.src2) <= 4
  {
  }

  lemma InstOf(s: State, ps: seq<u8>, rest: seq<u8>, inst: Op, i: Instruction)
    requires HasOperands(s, ps, rest, 0, inst) && DecodedAs(s, ps, rest, 0, 0, inst, i)
    ensures i.inst == inst
  {
  }

  lemma RunsForever(i: Instruction, env: Env)
    requires i.inst.opType in {OpUnary, OpRetFar, OpIret, OpOut, OpInvalid}
             || (i.inst.opType.OpString? && i.inst.subType in {INS, OUTS})
    ensures Execute(i, env) == Halted(Spin)
  {
  }
}
