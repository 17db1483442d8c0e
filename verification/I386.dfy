/** The instruction set tables and field macros of common/i386.h. */
module I386 {
  import opened Words

  // Registers by number; an 8-bit register number 4..7 names the high byte of register 0..3.
  const EAX := 0
  const ECX := 1
  const EDX := 2
  const EBX := 3
  const ESP := 4
  const EBP := 5
  const ESI := 6
  const EDI := 7

  const ES := 0
  const CS := 1
  const SS := 2
  const DS := 3
  const FS := 4
  const GS := 5

  // EFLAGS bit positions.
  const CARRY := 0
  const PARITY := 2
  const AUX := 4
  const ZERO := 6
  const SIGN := 7
  const INTERRUPT := 9
  const DIRECTION := 10
  const OVERFLOW := 11

  // Values of an entry's `flags`.
  const USE_MODRM := 1
  const WEIRD := 2
  const STR_SZ_8 := 4
  const STR_SZ_1632 := 8
  const WRITE_DX := 0x1010

  // Sub-types of ALU, ALU_SPECIAL, INCDEC, STRING_OP, JUMP, LOOP and SHIFT entries.
  const ALU_ADD := 0
  const ALU_OR := 1
  const ALU_ADC := 2
  const ALU_SBB := 3
  const ALU_AND := 4
  const ALU_SUB := 5
  const ALU_XOR := 6
  const ALU_CMP := 7
  const ALU_MULTI := 8

  const ALU_TEST := 0
  const ALU_NOT := 2
  const ALU_NEG := 3
  const ALU_MUL := 4
  const ALU_IMUL := 5
  const ALU_DIV := 6
  const ALU_IDIV := 7

  const ID_INC := 0
  const ID_DEC := 1

  const MOVS := 0
  const SCAS := 1
  const STOS := 2
  const INS := 3
  const OUTS := 4
  const LODS := 5
  const CMPS := 6

  const JO := 0
  const JNO := 1
  const JB := 2
  const JAE := 3
  const JE := 4
  const JNE := 5
  const JBE := 6
  const JA := 7
  const JS := 8
  const JNS := 9
  const JP := 10
  const JNP := 11
  const JL := 12
  const JGE := 13
  const JLE := 14
  const JG := 15
  const ALWAYS := 16
  const JCXZ := 17

  const LOOP_NORMAL := 0
  const LOOPE := 1
  const LOOPNE := 2

  const SHL := 4
  const SHR := 5

  datatype OpType =
    | OpAlu | OpPush | OpPop | OpPopSr | OpExtended | OpUnary | OpIncDec | OpPusha | OpPopa | OpAluSpecial
    | OpString | OpRepez | OpRepne | OpSegmentOverride | OpSizeOverride | OpAddrOverride | OpJump | OpXchg
    | OpMov | OpMovToSr | OpLea | OpLoadFarPointer | OpLock | OpRetNear | OpRetFar | OpCallNear | OpCallFar
    | OpClearFlag | OpSetFlag | OpInt | OpIret | OpCbwCwde | OpMultiplexedFF | OpIn | OpOut | OpCwdCdq
    | OpLoop | OpPushf | OpPopf | OpXlat | OpShift | OpJumpFar | OpSahf | OpLahf | OpEnter | OpLeave | OpCmc
    | OpInvalid

  datatype Kind =
    | KNone | KRmModrm | KRegModrm | KMemModrm | KCregModrm | KSegRegModrm | KConstReg | KConstSegReg | KImm
    | KFarPtr | KConstant | KEdxEax | KIpRel | KSimm | KOffset

  /** `Sz1632`, `Sz816`, `Sz3248` and `Sz3264` depend on the operand size in force. */
  datatype Size = Sz8 | Sz1632 | Sz16 | Sz32 | Sz816 | Sz3248 | Sz48 | Sz3264 | Sz64

  datatype Operand = Operand(kind: Kind, size: Size, value: u8)

  datatype Op = Op(opType: OpType, subType: nat, flags: nat, dest: Operand, src1: Operand, src2: Operand)

  const NONE := Operand(KNone, Sz8, 0)

  function Rm(size: Size): Operand { Operand(KRmModrm, size, 0) }
  function RegField(size: Size): Operand { Operand(KRegModrm, size, 0) }
  function ConstReg(size: Size, r: u8): Operand { Operand(KConstReg, size, r) }
  function ConstSeg(r: u8): Operand { Operand(KConstSegReg, Sz16, r) }
  function Imm(size: Size): Operand { Operand(KImm, size, 0) }
  function Constant(size: Size, v: u8): Operand { Operand(KConstant, size, v) }
  function IpRel(size: Size): Operand { Operand(KIpRel, size, 0) }
  function Offset(size: Size): Operand { Operand(KOffset, size, 0) }

  function Plain(t: OpType, subType: nat): Op { Op(t, subType, 0, NONE, NONE, NONE) }
  function StringEntry(subType: nat, flags: nat): Op { Op(OpString, subType, flags, NONE, NONE, NONE) }

  const UNDEFINED := Plain(OpInvalid, 0)

  /** Byte or word/dword form, as the low opcode bit selects. */
  function ByteOrWord(b: u8): Size { if b % 2 == 0 then Sz8 else Sz1632 }

  /** Rows 0x00-0x3F: eight ALU operations, each in six operand forms. */
  function AluEntry(alu: nat, form: nat): Op
  {
    var size := if form % 2 == 0 then Sz8 else Sz1632;
    var (left, right) :=
      if form < 2 then (Rm(size), RegField(size))
      else if form < 4 then (RegField(size), Rm(size))
      else (ConstReg(size, EAX), Imm(size));
    Op(OpAlu, alu, if form < 4 then USE_MODRM else 0, if alu == ALU_CMP then NONE else left, left, right)
  }

  function Rows00To3F(b: u8): Op
    requires b < 0x40
  {
    if b % 8 < 6 then AluEntry(b / 8, b % 8)
    else if b == 0x0F then Plain(OpExtended, 0)
    else if b < 0x20 then
      if b % 8 == 6 then Op(OpPush, 0, 0, NONE, ConstSeg(b / 8), NONE)
      else Op(OpPopSr, 0, 0, ConstSeg(b / 8), NONE, NONE)
    else if b % 8 == 6 then Plain(OpSegmentOverride, (b - 0x20) / 8)
    else Op(OpUnary, (b - 0x20) / 8, 0, ConstReg(Sz8, EAX), ConstReg(Sz8, EAX), NONE)
  }

  function Rows40To7F(b: u8): Op
    requires 0x40 <= b < 0x80
  {
    var r: u8 := b % 8;
    if b < 0x48 then Op(OpIncDec, ID_INC, 0, ConstReg(Sz1632, r), ConstReg(Sz1632, r), NONE)
    else if b < 0x50 then Op(OpIncDec, ID_DEC, 0, ConstReg(Sz1632, r), ConstReg(Sz1632, r), NONE)
    else if b < 0x58 then Op(OpPush, 0, 0, NONE, ConstReg(Sz1632, r), NONE)
    else if b < 0x60 then Op(OpPop, 0, 0, ConstReg(Sz1632, r), NONE, NONE)
    else if b >= 0x70 then Op(OpJump, b - 0x70, 0, NONE, IpRel(Sz8), NONE)
    else match b
      case 0x60 => Plain(OpPusha, 0)
      case 0x61 => Plain(OpPopa, 0)
      case 0x64 => Plain(OpSegmentOverride, FS)
      case 0x65 => Plain(OpSegmentOverride, GS)
      case 0x66 => Plain(OpSizeOverride, 0)
      case 0x67 => Plain(OpAddrOverride, 0)
      case 0x68 => Op(OpPush, 0, 0, NONE, Imm(Sz1632), NONE)
      case 0x69 => Op(OpAluSpecial, ALU_IMUL, USE_MODRM, RegField(Sz1632), Rm(Sz1632), Imm(Sz1632))
      case 0x6A => Op(OpPush, 0, 0, NONE, Imm(Sz8), NONE)
      case 0x6B => Op(OpAluSpecial, ALU_IMUL, USE_MODRM, RegField(Sz1632), Rm(Sz1632), Operand(KSimm, Sz8, 0))
      case 0x6C => StringEntry(INS, STR_SZ_8)
      case 0x6D => StringEntry(INS, STR_SZ_1632)
      case 0x6E => StringEntry(OUTS, STR_SZ_8)
      case 0x6F => StringEntry(OUTS, STR_SZ_1632)
      case _ => UNDEFINED
  }

  function Rows80ToBF(b: u8): Op
    requires 0x80 <= b < 0xC0
  {
    var size := ByteOrWord(b);
    if b >= 0xB8 then Op(OpMov, 0, 0, ConstReg(Sz1632, b % 8), Imm(Sz1632), NONE)
    else if b >= 0xB0 then Op(OpMov, 0, 0, ConstReg(Sz8, b % 8), Imm(Sz8), NONE)
    else if 0x90 <= b < 0x98 then Op(OpXchg, 0, 0, NONE, ConstReg(Sz1632, EAX), ConstReg(Sz1632, b % 8))
    else match b
      case 0x80 => Op(OpAlu, ALU_MULTI, USE_MODRM, Rm(Sz8), Rm(Sz8), Imm(Sz8))
      case 0x81 => Op(OpAlu, ALU_MULTI, USE_MODRM, Rm(Sz1632), Rm(Sz1632), Imm(Sz1632))
      case 0x82 => Op(OpAlu, ALU_MULTI, USE_MODRM, Rm(Sz8), Rm(Sz8), Imm(Sz8))
      case 0x83 => Op(OpAlu, ALU_MULTI, USE_MODRM, Rm(Sz1632), Rm(Sz1632), Operand(KSimm, Sz8, 0))
      case 0x84 | 0x85 => Op(OpAluSpecial, ALU_TEST, USE_MODRM, NONE, Rm(size), RegField(size))
      case 0x86 | 0x87 => Op(OpXchg, 0, USE_MODRM, NONE, Rm(size), RegField(size))
      case 0x88 | 0x89 => Op(OpMov, 0, USE_MODRM, Rm(size), RegField(size), NONE)
      case 0x8A | 0x8B => Op(OpMov, 0, USE_MODRM, RegField(size), Rm(size), NONE)
      case 0x8C => Op(OpMov, 0, USE_MODRM, Rm(Sz1632), Operand(KSegRegModrm, Sz16, 0), NONE)
      case 0x8D => Op(OpLea, 0, USE_MODRM, RegField(Sz1632), Operand(KMemModrm, Sz1632, 0), NONE)
      case 0x8E => Op(OpMovToSr, 0, USE_MODRM, Operand(KSegRegModrm, Sz16, 0), Rm(Sz16), NONE)
      case 0x8F => Op(OpPop, 0, USE_MODRM, Rm(Sz1632), NONE, NONE)
      case 0x98 => Op(OpCbwCwde, 0, 0, ConstReg(Sz1632, EAX), ConstReg(Sz816, EAX), NONE)
      case 0x99 => Op(OpCwdCdq, 0, 0, Operand(KEdxEax, Sz3264, 0), ConstReg(Sz1632, EAX), NONE)
      case 0x9A => Op(OpCallFar, 0, 0, NONE, Operand(KFarPtr, Sz3248, 0), NONE)
      case 0x9B => UNDEFINED
      case 0x9C => Plain(OpPushf, 0)
      case 0x9D => Plain(OpPopf, 0)
      case 0x9E => Plain(OpSahf, 0)
      case 0x9F => Plain(OpLahf, 0)
      case 0xA0 | 0xA1 => Op(OpMov, 0, 0, ConstReg(size, EAX), Offset(size), NONE)
      case 0xA2 | 0xA3 => Op(OpMov, 0, 0, Offset(size), ConstReg(size, EAX), NONE)
      case 0xA4 => StringEntry(MOVS, STR_SZ_8)
      case 0xA5 => StringEntry(MOVS, STR_SZ_1632)
      case 0xA6 => StringEntry(CMPS, STR_SZ_8)
      case 0xA7 => StringEntry(STOS, STR_SZ_1632)
      case 0xA8 | 0xA9 => Op(OpAluSpecial, ALU_TEST, 0, NONE, ConstReg(size, EAX), Imm(size))
      case 0xAA => StringEntry(STOS, STR_SZ_8)
      case 0xAB => StringEntry(STOS, STR_SZ_1632)
      case 0xAC => StringEntry(LODS, STR_SZ_8)
      case 0xAD => StringEntry(LODS, STR_SZ_1632)
      case 0xAE => StringEntry(SCAS, STR_SZ_8)
      case _ => StringEntry(SCAS, STR_SZ_1632)
  }

  function RowsC0ToFF(b: u8): Op
    requires 0xC0 <= b
  {
    var size := ByteOrWord(b);
    match b
    case 0xC0 | 0xC1 => Op(OpShift, 0, USE_MODRM, Rm(size), Rm(size), Imm(Sz8))
    case 0xC2 => Op(OpRetNear, 0, 0, NONE, Imm(Sz16), NONE)
    case 0xC3 => Op(OpRetNear, 0, 0, NONE, Constant(Sz16, 0), NONE)
    case 0xC4 => Op(OpLoadFarPointer, ES, USE_MODRM, RegField(Sz1632), Operand(KMemModrm, Sz3248, 0), NONE)
    case 0xC5 => Op(OpLoadFarPointer, DS, USE_MODRM, RegField(Sz1632), Operand(KMemModrm, Sz3248, 0), NONE)
    case 0xC6 | 0xC7 => Op(OpMov, 0, USE_MODRM, Rm(size), Imm(size), NONE)
    case 0xC8 => Op(OpEnter, 0, 0, NONE, Imm(Sz16), Imm(Sz8))
    case 0xC9 => Plain(OpLeave, 0)
    case 0xCA => Op(OpRetFar, 0, 0, NONE, Imm(Sz16), NONE)
    case 0xCB => Op(OpRetFar, 0, 0, NONE, Constant(Sz16, 0), NONE)
    case 0xCC => Op(OpInt, 0, 0, NONE, Constant(Sz8, 0), NONE)
    case 0xCD => Op(OpInt, 0, 0, NONE, Imm(Sz8), NONE)
    case 0xCF => Plain(OpIret, 0)
    case 0xD0 | 0xD1 => Op(OpShift, 0, USE_MODRM, Rm(size), Rm(size), Constant(Sz8, 1))
    case 0xD2 | 0xD3 => Op(OpShift, 0, USE_MODRM, Rm(Sz1632), Rm(Sz1632), ConstReg(Sz8, ECX))
    case 0xD7 => Plain(OpXlat, 0)
    case 0xE0 => Op(OpLoop, LOOPNE, 0, NONE, IpRel(Sz8), NONE)
    case 0xE1 => Op(OpLoop, LOOPE, 0, NONE, IpRel(Sz8), NONE)
    case 0xE2 => Op(OpLoop, LOOP_NORMAL, 0, NONE, IpRel(Sz8), NONE)
    case 0xE3 => Op(OpJump, JCXZ, 0, NONE, IpRel(Sz8), NONE)
    case 0xE4 | 0xE5 => Op(OpIn, 0, 0, ConstReg(size, EAX), Imm(Sz8), NONE)
    case 0xE6 | 0xE7 => Op(OpOut, 0, 0, Imm(Sz8), ConstReg(size, EAX), NONE)
    case 0xE8 => Op(OpCallNear, 0, 0, NONE, IpRel(Sz1632), NONE)
    case 0xE9 => Op(OpJump, ALWAYS, 0, NONE, IpRel(Sz1632), NONE)
    case 0xEA => Op(OpJumpFar, 0, 0, NONE, Operand(KFarPtr, Sz3248, 0), NONE)
    case 0xEB => Op(OpJump, ALWAYS, 0, NONE, IpRel(Sz8), NONE)
    case 0xEC | 0xED => Op(OpIn, 0, 0, ConstReg(size, EAX), ConstReg(Sz16, EDX), NONE)
    case 0xEE | 0xEF => Op(OpOut, 0, 0, ConstReg(Sz16, EDX), ConstReg(size, EAX), NONE)
    case 0xF0 => Plain(OpLock, 0)
    case 0xF2 => Plain(OpRepne, 0)
    case 0xF3 => Plain(OpRepez, 0)
    case 0xF5 => Plain(OpCmc, 0)
    case 0xF6 | 0xF7 => Op(OpAluSpecial, ALU_MULTI, USE_MODRM + WEIRD, NONE, Rm(size), NONE)
    case 0xF8 => Plain(OpClearFlag, CARRY)
    case 0xF9 => Plain(OpSetFlag, CARRY)
    case 0xFA => Plain(OpClearFlag, INTERRUPT)
    case 0xFB => Plain(OpSetFlag, INTERRUPT)
    case 0xFC => Plain(OpClearFlag, DIRECTION)
    case 0xFD => Plain(OpSetFlag, DIRECTION)
    case 0xFE | 0xFF => Op(OpMultiplexedFF, 0, USE_MODRM, Rm(size), Rm(size), NONE)
    case _ => UNDEFINED
  }

  function InstructionTable(b: u8): Op
  {
    if b < 0x40 then Rows00To3F(b)
    else if b < 0x80 then Rows40To7F(b)
    else if b < 0xC0 then Rows80ToBF(b)
    else RowsC0ToFF(b)
  }

  /** The two-byte 0F table has one defined entry. */
  function ExtendedInstructionTable(b: u8): Op
  {
    if b == 0xAF then Op(OpAluSpecial, ALU_IMUL, USE_MODRM, RegField(Sz1632), RegField(Sz1632), Rm(Sz1632))
    else UNDEFINED
  }

  predicate IsPrefix(b: u8)
  {
    var t := InstructionTable(b).opType;
    t.OpLock? || t.OpSizeOverride? || t.OpAddrOverride? || t.OpSegmentOverride?
  }

  predicate UsesModrm(op: Op) { op.flags % 2 == 1 }

  // Fields of the ModR/M and SIB bytes.
  function ModField(b: u8): nat { b / 0x40 }
  function RegOf(b: u8): nat { b / 8 % 8 }
  function RmOf(b: u8): nat { b % 8 }
}
