/** Operations that do not do what the processor's do, each with the exact condition under which they still come to the
    same. */
module Departures {
  import opened Words
  import opened I386
  import opened Machine
  import opened Step
  import opened FlagLaws
  import opened CarryChain
  import opened Places
  import opened ShiftLaws
  import opened Instructions

  /** maverick masks the address of a word and reads its second byte behind the first: at the top of the megabyte that
      is not the byte at address 0, and the word is right exactly when the host byte there is the same. */
  lemma WordAcrossTop(m: Memory, a: u32)
    requires |m| == BUS20 + SLACK
    ensures Read16(m, a) == Bytes16(Read8(m, a), Read8(m, Wrap32(a + 1))) <==>
        a % BUS20 != BUS20 - 1 || m[BUS20] == m[0]
  {
    AddMultiple(Wrap32(a + 1), (a + 1) / TWO32 * 0x1000, BUS20);
    var (q, r) := (a / BUS20, a % BUS20);
    if r == BUS20 - 1 { DivModUnique(a + 1, q + 1, 0, BUS20); } else { DivModUnique(a + 1, q, r + 1, BUS20); }
  }

  /** NEG leaves the negated operand, and carry where the processor clears it and no carry where the processor sets
      it. */
  lemma NegCarryInverted(s: State, d: Decoded, src2: Decoded, flags: nat, v: u64, t: State)
    requires Location(d) && ReadSource(s, d) == Ok(v) && ReadSource(s, src2).Ok?
        && DoAluSpecial(s, ALU_NEG, d, d, src2, flags) == Ok(t)
    requires !WritesDx(flags)
    ensures ReadSource(t, d) == Ok(Reduced(-(v as int), d.size))
    ensures JumpCondition(t, JB) <==> v == 0
    ensures JumpCondition(t, JE) <==> v == 0
  {
    hide ReadSource, WriteDest, Reduced, SignBit, OddParity, ZeroBits;
    OperandBelow(s, d, v);
    var e := SetSZP(s.eflags[CARRY := v == 0], -(v as int), d.size);
    assert WriteDest(s.(eflags := e), d, -(v as int)) == Ok(t);
    WriteThenRead(s.(eflags := e), d, -(v as int));
    ReducedSign(-(v as int), d.size);
    ReducedIs(-(v as int), d.size);
    NegatedZero(v, Limit(d.size));
  }

  lemma NegatedZero(v: int, m: int)
    requires 0 <= v < m
    ensures (-v) % m == 0 <==> v == 0
  {
    if v > 0 { DivModUnique(-v, -1, m - v, m); }
  }

  /** The step over opcode F6 or F7 with reg field 3, any ModR/M operand: it always returns, and so. */
  lemma StepNeg(s: State, env: Env, modrm: u8, rm: Decoded, t: State, v: u64)
    requires (Code8(s) == 0xF6 || Code8(s) == 0xF7) && Code8(Fetched(s)) == modrm && RegOf(modrm) == ALU_NEG
    requires DecodeRm(Skip(Fetched(s), 1), modrm) == Ok((rm, t)) && ((rm.kind.DReg? && rm.id < 8) || rm.kind.DMem?)
    requires ReadSource(t, NegOperand(Code8(s), rm, t)) == Ok(v)
    ensures Step.Step(s, env).Ok?
    ensures ReadSource(Step.Step(s, env).value, NegOperand(Code8(s), rm, t))
         == Ok(Reduced(-(v as int), NegOperand(Code8(s), rm, t).size))
    ensures JumpCondition(Step.Step(s, env).value, JB) <==> v == 0
  {
    hide Code8, InstructionTable, Execute, Form, PlainOpcode, Skip, Step.Step, DecodeRm, Fetched, DecodedRm, ReadSource,
      Reduced;
    hide JumpCondition, Decode, DoAluSpecial, InlineOperands;
    var (inst, d) := (GroupEntry(Code8(s)), NegOperand(Code8(s), rm, t));
    GroupRow(Code8(s));
    var neg := FixupF6(inst, ALU_NEG);
    NegForm(t, rm, Code8(s), neg);
    var i := Instruction(neg, ALU_NEG, d, d, NO_RM, t.(oldEip := t.eip));
    GroupDecodes(Fetched(s), Code8(s), modrm, rm, t, i);
    BareStep(s, env, i);
    NegLocation(Code8(s), rm, t);
    NegExecutes(i, env);
    OnlyOldEip(i.s, t, d, v);
    NegRuns(i.s, d, neg.flags);
    NegCarryInverted(i.s, d, NO_RM, neg.flags, v, Step.Step(s, env).value);
  }

  function GroupEntry(opcode: u8): Op {
    Op(OpAluSpecial, ALU_MULTI, USE_MODRM + WEIRD, NONE, Rm(ByteOrWord(opcode)), NONE)
  }

  function NegOperand(opcode: u8, rm: Decoded, t: State): Decoded {
    DecodedRm(t, rm, ActualSize(ByteOrWord(opcode), OpSize32(t)))
  }

  lemma NegLocation(opcode: u8, rm: Decoded, t: State)
    requires (rm.kind.DReg? && rm.id < 8) || rm.kind.DMem?
    ensures Location(NegOperand(opcode, rm, t))
  {
  }

  lemma NegExecutes(i: Instruction, env: Env)
    requires i.inst.opType.OpAluSpecial? && i.inst.subType == ALU_NEG && i.src1 == i.dst && i.src2 == NO_RM
    ensures Execute(i, env) == DoAluSpecial(i.s, ALU_NEG, i.dst, i.dst, NO_RM, i.inst.flags)
    ensures ReadSource(i.s, NO_RM).Ok?
  {
    hide DoAluSpecial;
  }

  lemma GroupRow(b: u8)
    requires b == 0xF6 || b == 0xF7
    ensures PlainOpcode(b) && InstructionTable(b) == GroupEntry(b)
  {
  }

  lemma NegForm(t: State, rm: Decoded, opcode: u8, neg: Op)
    requires (opcode == 0xF6 || opcode == 0xF7) && neg == FixupF6(GroupEntry(opcode), ALU_NEG)
    ensures InlineOperands(neg) && neg.opType.OpAluSpecial? && neg.subType == ALU_NEG && !WritesDx(neg.flags)
    ensures Form(t, rm, ALU_NEG, neg)
         == Instruction(neg, ALU_NEG, NegOperand(opcode, rm, t), NegOperand(opcode, rm, t), NO_RM, t.(oldEip := t.eip))
  {
    WrapSmall(t.eip);
    assert Skip(t, 0) == t;
  }

  lemma GroupDecodes(s: State, opcode: u8, modrm: u8, rm: Decoded, t: State, i: Instruction)
    requires opcode == 0xF6 || opcode == 0xF7
    requires Code8(s) == modrm && RegOf(modrm) == ALU_NEG && DecodeRm(Skip(s, 1), modrm) == Ok((rm, t))
    requires InlineOperands(FixupF6(GroupEntry(opcode), ALU_NEG))
        && i == Form(t, rm, ALU_NEG, FixupF6(GroupEntry(opcode), ALU_NEG))
    ensures Decode(s, GroupEntry(opcode)) == Ok(i)
  {
    hide Code8, DecodeRm, Form, InlineOperands, DecodeOperands, Skip;
    OperandsDecode(t, rm, ALU_NEG, FixupF6(GroupEntry(opcode), ALU_NEG));
  }

  lemma OnlyOldEip(s: State, t: State, d: Decoded, v: u64)
    requires s == t.(oldEip := t.eip) && (d.kind.DReg? || d.kind.DMem?) && ReadSource(t, d) == Ok(v)
    ensures ReadSource(s, d) == Ok(v)
  {
    hide Read8, Read16, Read32, Low8, High8, Low16;
  }

  lemma NegRuns(s: State, d: Decoded, flags: nat)
    requires Location(d) && !WritesDx(flags)
    ensures DoAluSpecial(s, ALU_NEG, d, d, NO_RM, flags).Ok?
  {
    LocationReads(s, d);
    forall e: Bits32 ensures forall v: int :: WriteDest(s.(eflags := e), d, v).Ok? {
      LocationReads(s.(eflags := e), d);
    }
    hide WriteDest, SetSZP;
  }

  function LeftElement(s: State, sz: nat): u32 { ReadN(s.mem, StringSource(s), sz) }
  function RightElement(s: State, sz: nat): u32 { ReadN(s.mem, StringDest(s), sz) }

  /** CMPS compares low bytes: its ZF is right exactly when the elements are equal or their low bytes differ. */
  lemma CmpsComparesLowBytes(s: State, sz: nat)
    ensures DoCmps(s, sz).eflags[ZERO] <==> Wrap8(LeftElement(s, sz)) == Wrap8(RightElement(s, sz))
    ensures (DoCmps(s, sz).eflags[ZERO] <==> LeftElement(s, sz) == RightElement(s, sz))
       <==> (LeftElement(s, sz) == RightElement(s, sz) || Wrap8(LeftElement(s, sz)) != Wrap8(RightElement(s, sz)))
  {
    hide ReadN, StringSource, StringDest, Wrap32;
    SameLowByte(LeftElement(s, sz), RightElement(s, sz));
  }

  lemma SameLowByte(x: int, y: int)
    ensures Wrap8(x - y) == 0 <==> Wrap8(x) == Wrap8(y)
  {
    var d := Wrap8(x) - Wrap8(y);
    AddMultiple(d, x / TWO8 - y / TWO8, TWO8);
  }

  /** The one CMPS entry, A6, is byte-sized, and its step sets ZF right. */
  lemma StepCmpsb(s: State, env: Env)
    requires Code8(s) == 0xA6
    ensures Step.Step(s, env) == Ok(DoCmps(Behind(s, 1), 1))
    ensures DoCmps(Behind(s, 1), 1).eflags[ZERO] <==> LeftElement(Behind(s, 1), 1) == RightElement(Behind(s, 1), 1)
  {
    hide Code8, InstructionTable, Behind, Execute, Form, Simple, PlainOpcode, Skip, Step.Step, Fetched, DoCmps;
    var inst := StringEntry(CMPS, STR_SZ_8);
    StringRows();
    DirectStep(s, env, inst);
    NoOperandsForm(s, inst);
    RunCmps(Instruction(inst, 0, NO_RM, NO_RM, NO_RM, Behind(s, 1)), env);
    CmpsComparesLowBytes(Behind(s, 1), 1);
    ByteElements(Behind(s, 1));
  }

  lemma StringRows()
    ensures PlainOpcode(0xA6) && InstructionTable(0xA6) == StringEntry(CMPS, STR_SZ_8)
    ensures Simple(StringEntry(CMPS, STR_SZ_8)) && !UsesModrm(StringEntry(CMPS, STR_SZ_8))
    ensures InstructionTable(0xF3) == Plain(OpRepez, 0) && !IsPrefix(0xF3)
    ensures InstructionTable(0x31) == Op(OpAlu, ALU_XOR, USE_MODRM, Rm(Sz1632), Rm(Sz1632), I386.RegField(Sz1632))
  {
  }

  lemma NoOperandsForm(s: State, inst: Op)
    requires inst.dest == inst.src1 == inst.src2 == NONE
    ensures Form(Fetched(s), NO_RM, 0, inst) == Instruction(inst, 0, NO_RM, NO_RM, NO_RM, Behind(s, 1))
  {
    hide Wrap32, Behind;
    BehindForm(s, 0, Skip(Fetched(s), 0));
  }

  lemma RunCmps(i: Instruction, env: Env)
    requires i.inst == StringEntry(CMPS, STR_SZ_8)
    ensures Execute(i, env) == Ok(DoCmps(i.s, 1))
  {
    hide DoCmps, DoMovs, DoStos, DoLods, DoScas;
  }

  lemma ByteElements(s: State)
    ensures LeftElement(s, 1) < TWO8 && RightElement(s, 1) < TWO8
  {
    hide StringSource, StringDest;
  }

  /** Word and dword elements are compared only behind REP before an entry whose sub-type has the number of CMPS: F3 31
      and a ModR/M byte that names two registers runs as REPE CMPS, by low bytes, over elements of the operand size. */
  lemma StepRepXor(s: State, env: Env, modrm: u8)
    requires Real16(s) && Code8(s) == 0xF3 && Code8(Skip(s, 1)) == 0x31 && Code8(Skip(s, 2)) == modrm
        && ModField(modrm) == 3
    ensures Step.Step(s, env) == DoRepString(Behind(s, 3), CMPS, USE_MODRM, false)
    ensures StringSize(Behind(s, 3), USE_MODRM) == 2
  {
    hide Code8, InstructionTable, Behind, Execute, Form, InlineOperands, Skip, RunBare, Fetched, DoRepString, IsPrefix,
      Real16, Decode;
    StringRows();
    FetchedCode(s);
    var t := Fetched(s);
    var inst := Op(OpRepez, ALU_XOR, USE_MODRM, Rm(Sz1632), Rm(Sz1632), I386.RegField(Sz1632));
    BareOnly(s, env);
    RepSelects(s, t);
    RepDecodes(s, modrm, inst);
    RepForm(s, modrm, inst);
    RepRuns(t, inst, Form(Skip(t, 2), Decoded(DReg, RmOf(modrm), Sz8, 0), RegOf(modrm), inst), env);
  }

  lemma BareOnly(s: State, env: Env)
    requires !IsPrefix(Code8(s))
    ensures Step.Step(s, env) == RunBare(Fetched(s), Code8(s), env)
  {
    hide RunBare, Code8, InstructionTable;
  }

  lemma RepSelects(s: State, t: State)
    requires t == Fetched(s) && Code8(t) == 0x31
    ensures SelectEntry(t, 0xF3)
         == (Op(OpRepez, ALU_XOR, USE_MODRM, Rm(Sz1632), Rm(Sz1632), I386.RegField(Sz1632)), Skip(t, 1))
  {
    StringRows();
    hide InstructionTable, Code8, Skip, Fetched;
  }

  lemma RepDecodes(s: State, modrm: u8, inst: Op)
    requires Real16(s) && Code8(Skip(s, 2)) == modrm && ModField(modrm) == 3
    requires inst == Op(OpRepez, ALU_XOR, USE_MODRM, Rm(Sz1632), Rm(Sz1632), I386.RegField(Sz1632))
    ensures Decode(Skip(Fetched(s), 1), inst)
         == Ok(Form(Skip(Fetched(s), 2), Decoded(DReg, RmOf(modrm), Sz8, 0), RegOf(modrm), inst))
  {
    hide Wrap32, Form, DecodeOperands, Read8;
    WrapTwice(s.eip + 1, 1);
    WrapTwice(Fetched(s).eip + 1, 1);
    assert Skip(Skip(Fetched(s), 1), 1) == Skip(Fetched(s), 2);
    DecodeRmReg16(Skip(Fetched(s), 2), modrm);
    OperandsDecode(Skip(Fetched(s), 2), Decoded(DReg, RmOf(modrm), Sz8, 0), RegOf(modrm), inst);
    assert Fixup(inst, RegOf(modrm)) == Ok(inst);
  }

  lemma RepRuns(t: State, inst: Op, i: Instruction, env: Env)
    requires inst.opType.OpRepez? && inst.subType == CMPS && inst.flags == USE_MODRM && i.inst == inst
    requires SelectEntry(t, 0xF3) == (inst, Skip(t, 1)) && Decode(Skip(t, 1), inst) == Ok(i)
    ensures RunBare(t, 0xF3, env) == DoRepString(i.s, CMPS, USE_MODRM, false)
  {
    hide SelectEntry, Decode, Skip, DoRepString;
  }

  lemma RepForm(s: State, modrm: u8, inst: Op)
    requires Real16(s) && inst == Op(OpRepez, ALU_XOR, USE_MODRM, Rm(Sz1632), Rm(Sz1632), I386.RegField(Sz1632))
    ensures Form(Skip(Fetched(s), 2), Decoded(DReg, RmOf(modrm), Sz8, 0), RegOf(modrm), inst).s == Behind(s, 3)
    ensures Form(Skip(Fetched(s), 2), Decoded(DReg, RmOf(modrm), Sz8, 0), RegOf(modrm), inst).inst == inst
    ensures StringSize(Behind(s, 3), USE_MODRM) == 2
  {
    hide Wrap32;
    BehindForm(s, 2, Skip(Fetched(s), 2));
    WrapSmall(Skip(Fetched(s), 2).eip);
    assert Skip(Skip(Fetched(s), 2), 0) == Skip(Fetched(s), 2);
  }

  /** SCASB compares the byte with all of EAX: its ZF is right unless AL matches under a nonzero rest. SCASW and SCASD
      leave ZF as it was. */
  lemma ScasComparesEax(s: State, opcode: u8)
    requires opcode == 0xAE || opcode == 0xAF
    ensures var sz := StringSize(s, InstructionTable(opcode).flags);
            var t := DoScas(s, InstructionTable(opcode).flags, sz);
            if opcode == 0xAE then
              sz == 1 && (t.eflags[ZERO] <==> s.regs[EAX] == RightElement(s, 1))
              && ((t.eflags[ZERO] <==> Reg8(s, EAX) == RightElement(s, 1)) <==>
                !(Reg8(s, EAX) == RightElement(s, 1) && s.regs[EAX] >= TWO8))
            else t.eflags == s.eflags
  {
    ScasRows();
    hide InstructionTable, StringDest;
    var v := Read8(s.mem, StringDest(s));
    hide Read8, Read16, Read32;
    SmallDifference(s.regs[EAX], v);
  }

  lemma ScasRows()
    ensures InstructionTable(0xAE).flags == STR_SZ_8 && InstructionTable(0xAF).flags == STR_SZ_1632
    ensures InstructionTable(0xA7) == StringEntry(STOS, STR_SZ_1632)
  {
  }

  lemma SmallDifference(x: u32, y: u32)
    ensures Wrap32(x as int - y) == 0 <==> x == y
  {
  }

  /** Opcode A7, the word form of CMPS, stores EAX instead; behind REPE it fills. */
  lemma CmpswStores(s: State)
    ensures DoString(s, InstructionTable(0xA7).subType, InstructionTable(0xA7).flags) ==
        Ok(DoStos(s, if OpSize32(s) then 4 else 2))
  {
    ScasRows();
    hide InstructionTable, DoStos, DoCmps, DoMovs, DoLods, DoScas;
  }

  /** A SIB byte is decoded exactly when it has no index or its scale field is 0 or 1. */
  lemma SibDecodes(s: State, mod: nat)
    ensures DecodeSib(s, mod).Ok? <==> RegOf(Code8(s)) == 4 || ModField(Code8(s)) < 2
  {
    hide Code8, Code32;
  }
}
