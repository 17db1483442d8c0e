/** Whole instructions on the accumulator, behind any prefixes: multiplication, division, sign extension and input; and
    the segment registers read, and INT. */
module AccumulatorSteps {
  import opened Words
  import opened I386
  import opened Machine
  import opened Step
  import opened RunInvariants
  import opened Disassembler
  import opened Instructions
  import opened FlagLaws
  import opened Places
  import opened Texts
  import opened MoveSteps
  import opened StackSteps
  import opened FrameSteps
  import MulDiv

  // ----- MUL, IMUL, DIV and IDIV -----

  /** AL and AH, AX and DX, or EAX and EDX. */
  function LowHalf(n: nat): Place { Register(EAX, n) }
  function HighHalf(n: nat): Place { if n == 1 then HighByte(EAX) else Register(EDX, n) }

  function Halved(s: State, n: nat, low: int, high: int): State {
    Assigned(Assigned(s, LowHalf(n), low), HighHalf(n), high)
  }

  /** Both halves as one number. */
  function Doubled(s: State, n: nat): nat { Contents(s, HighHalf(n)) * Bytes(n) + Contents(s, LowHalf(n)) }

  /** The number of `n` bytes, read with its sign. */
  function SignedBytes(v: int, n: nat): int { if 2 * v >= Bytes(n) then v - Bytes(n) else v }

  /** What the four operations leave, or that the host faults: a zero divisor, or a quotient of 2^31 or 2^63. */
  function Outcome(s: State, b: State, reg: nat, n: nat, v: int): Result<State>
  {
    var (x, y) := (SignedBytes(Contents(s, LowHalf(n)), n), SignedBytes(v, n));
    var (d, e) := (Doubled(s, n), SignedBytes(Doubled(s, n), 2 * n));
    match reg
    case 4 =>
      var p := Contents(s, LowHalf(n)) * v;
      Ok(Halved(b, n, p, p / Bytes(n)))
    case 5 => Ok(Halved(b, n, x * y, x * y / Bytes(n)))
    case 6 => if v == 0 then Halted(HostUndefined) else Ok(Halved(b, n, d / v, d % v))
    case _ =>
      if y == 0 || (y == -1 && n > 1 && 2 * e == -Bytes(2 * n)) then Halted(HostUndefined)
      else Ok(Halved(b, n, TruncDiv(e, y), TruncMod(e, y)))
  }

  lemma RunSpecial(i: Instruction, env: Env, a: u64, b: u64, n: nat)
    requires i.inst.opType.OpAluSpecial? && i.inst.flags == WRITE_DX && 4 <= i.inst.subType <= 7
    requires Location(i.dst) && PlaceOf(i.s, i.dst) == LowHalf(n) && Width(i.dst.size) == n
    requires ReadSource(i.s, i.src1) == Ok(a) && ReadSource(i.s, i.src2) == Ok(b)
    ensures Execute(i, env) ==
            match SpecialResult(i.inst.subType, i.s.eflags, a, b, OperandBits(i.dst.size), i.src1.size)
            case Ok(x) => Ok(Halved(i.s, n, x.res, x.rem))
            case Halted(why) => Halted(why)
  {
    hide ReadSource, WriteDest, SignedAt, SignedDouble, HighPart, TruncDiv, TruncMod, Assigned, PlaceOf, SetReg8,
      SetReg16;
    hide SetReg32, Execute, And32;
    SpecialExecutes(i, env, a, b);
    var r := SpecialResult(i.inst.subType, i.s.eflags, a, b, OperandBits(i.dst.size), i.src1.size);
    if r.Ok? {
      assert r.value.eflags == i.s.eflags && i.s.(eflags := i.s.eflags) == i.s;
      WritesPlace(i.s, i.dst, r.value.res);
      HighWritten(Assigned(i.s, LowHalf(n), r.value.res), i.dst.size, r.value.rem);
    }
  }

  lemma SpecialExecutes(i: Instruction, env: Env, a: u64, b: u64)
    requires i.inst.opType.OpAluSpecial? && i.inst.flags == WRITE_DX
    requires ReadSource(i.s, i.src1) == Ok(a) && ReadSource(i.s, i.src2) == Ok(b)
    ensures Execute(i, env) ==
            match SpecialResult(i.inst.subType, i.s.eflags, a, b, OperandBits(i.dst.size), i.src1.size)
            case Ok(x) =>
              (match WriteDest(i.s.(eflags := x.eflags), i.dst, x.res)
               case Ok(t) => WriteHigh(t, i.dst.size, x.rem)
               case Halted(why) => Halted(why))
            case Halted(why) => Halted(why)
  {
    hide ReadSource, WriteDest, SpecialResult, WriteHigh;
  }

  lemma HighWritten(s: State, size: Size, v: int)
    requires FlagSize(size)
    ensures WriteHigh(s, size, v) == Ok(Assigned(s, HighHalf(Width(size)), v))
  {
    SplitRegister(s.regs[EAX]);
    SplitRegister(s.regs[EDX]);
  }

  // ----- The results, by numbers -----

  lemma SignedIs(v: int, size: Size)
    requires FlagSize(size) && 0 <= v < Limit(size)
    ensures SignedAt(v, OperandBits(size)) == SignedBytes(v, Width(size))
  {
    ShortPowers();
    if size == Sz8 { DivModUnique(v, 0, v, TWO8); }
    else if size == Sz16 { DivModUnique(v, 0, v, TWO16); }
    else { DivModUnique(v, 0, v, TWO32); }
  }

  lemma DoubleIs(v: int, size: Size)
    requires FlagSize(size) && 0 <= v < Bytes(2 * Width(size))
    ensures SignedDouble(v, OperandBits(size)) == SignedBytes(v, 2 * Width(size))
    ensures Bytes(8) == TWO64
  {
    ShortPowers();
    LongPowers();
    if size == Sz8 { DivModUnique(v, 0, v, TWO16); }
    else if size == Sz16 { DivModUnique(v, 0, v, TWO32); }
    else { DivModUnique(v, 0, v, TWO64); }
  }

  lemma LongPowers()
    ensures Bytes(5) == 0x100_0000_0000 && Bytes(6) == 0x1_0000_0000_0000 && Bytes(7) == 0x100_0000_0000_0000
    ensures Bytes(8) == TWO64
  {
    ShortPowers();
  }

  lemma HighIs(p: int, size: Size)
    requires FlagSize(size)
    ensures HighPart(p, OperandBits(size)) == p / Bytes(Width(size))
  {
    ShortPowers();
  }

  /** The four results of the code are those of the outcome. */
  lemma SpecialIs(s: State, b: State, reg: nat, size: Size, v: int, flagSize: Size)
    requires FlagSize(size) && 4 <= reg <= 7 && 0 <= v < Limit(size)
        && 0 <= Contents(s, LowHalf(Width(size))) < Limit(size)
    requires 0 <= Doubled(s, Width(size)) < Bytes(2 * Width(size)) <= TWO64
    ensures var n := Width(size);
            var a := if reg < ALU_DIV then Contents(s, LowHalf(n)) else Doubled(s, n);
            Outcome(s, b, reg, n, v) ==
              match SpecialResult(reg, s.eflags, a, v, OperandBits(size), flagSize)
              case Ok(x) => Ok(Halved(b, n, x.res, x.rem))
              case Halted(why) => Halted(why)
  {
    hide Halved, Contents, TruncDiv, TruncMod, Doubled, SignedBytes, SignedAt, SignedDouble, HighPart, And32, Bytes;
    var (n, l) := (Width(size), Contents(s, LowHalf(Width(size))));
    SignedIs(l, size);
    SignedIs(v, size);
    DoubleIs(Doubled(s, n), size);
    HighIs(l * v, size);
    HighIs(SignedBytes(l, n) * SignedBytes(v, n), size);
    if reg == ALU_MUL { ProductFits(l, v, size); }
    if reg == ALU_IDIV { LeastDividend(SignedBytes(Doubled(s, n), 2 * n), size); }
  }

  lemma ProductFits(x: int, y: int, size: Size)
    requires FlagSize(size) && 0 <= x < Limit(size) && 0 <= y < Limit(size)
    ensures 0 <= x * y && Wrap64(x * y) == x * y
  {
    MulDiv.ProductMonotone(TWO32 - 1, x, y);
    MulDiv.ProductMonotone(x, 0, y);
    DivModUnique(x * y, 0, x * y, TWO64);
  }

  lemma LeastDividend(e: int, size: Size)
    requires FlagSize(size)
    ensures 2 * e == -Bytes(2 * Width(size)) <==>
            e == if size == Sz8 then -0x8000 else if size == Sz16 then -0x8000_0000 else -0x8000_0000_0000_0000
  {
    ShortPowers();
    LongPowers();
  }

  // ----- Reading the accumulator -----

  lemma DoubleFits(s: State, size: Size)
    requires FlagSize(size)
    ensures var n := Width(size);
            && 0 <= Contents(s, LowHalf(n)) < Limit(size) && 0 <= Doubled(s, n) < Bytes(2 * n) <= TWO64
            && (size == Sz8 ==> Doubled(s, 1) == s.regs[EAX] % TWO16)
            && (size == Sz16 ==> Doubled(s, 2) == Reg16(s, EDX) * TWO16 + Reg16(s, EAX))
            && (size == Sz32 ==> Doubled(s, 4) == s.regs[EDX] * TWO32 + s.regs[EAX])
  {
    ShortPowers();
    LongPowers();
    SplitRegister(s.regs[EAX]);
    Parts(s.regs[EAX] / TWO16, High8(s.regs[EAX]), Low8(s.regs[EAX]));
  }

  /** The source operand of the four: the accumulator, or both halves. */
  lemma DividendRead(s: State, e: State, d: Decoded, reg: nat, size: Size, x: Source)
    requires FlagSize(size) && e.regs == s.regs && e.mem == s.mem && Denotes(s, e, d, x)
    requires reg < ALU_DIV ==> x == Held(LowHalf(Width(size)))
    requires reg >= ALU_DIV && size == Sz8 ==> x == Held(LowWord(EAX))
    requires reg >= ALU_DIV && size != Sz8 ==> x == Pair && d.size == if size == Sz16 then Sz32 else Sz64
    ensures ReadSource(e, d) == Ok(if reg < ALU_DIV then Contents(s, LowHalf(Width(size))) else Doubled(s, Width(size)))
  {
    DoubleFits(s, size);
    if x.Held? {
      ReadsSource(s, e, d, x);
    }
    hide PlaceOf, Location;
  }

  function GroupRow(opcode: u8, reg: RegIndex): Op
  {
    var size := ByteOrWord(opcode);
    Op(OpAluSpecial, reg, WRITE_DX, ConstReg(size, EAX),
       if reg < ALU_DIV then ConstReg(size, EAX) else if size == Sz8 then ConstReg(Sz16, EAX)
       else Operand(KEdxEax, Sz3264, 0), Rm(size))
  }

  lemma GroupIs(opcode: u8, reg: RegIndex)
    requires 0xF6 <= opcode <= 0xF7 && reg >= 4
    ensures PlainOpcode(opcode) && UsesModrm(InstructionTable(opcode))
    ensures Fixup(InstructionTable(opcode), reg) == Ok(GroupRow(opcode, reg))
  {
  }

  lemma OutcomeLands(s: State, ps: seq<u8>, m: nat, reg: nat, n: nat, v: int)
    requires NothingPending(s) && 4 <= reg <= 7
    ensures Finished(s, Outcome(s, Executing(s, ps, m), reg, n, v)) == Outcome(s, Behind(s, |ps| + 1 + m), reg, n, v)
  {
    hide Executing, Behind, Finished, SameChange, Contents, Doubled, TruncDiv, TruncMod, SignedBytes, Bytes, Halved;
    NoChange(s, ps, m);
    HaltsStay(s);
    var (e, b) := (Executing(s, ps, m), Behind(s, |ps| + 1 + m));
    forall low: int, high: int ensures Finished(s, Ok(Halved(e, n, low, high))) == Ok(Halved(b, n, low, high)) {
      HalvedChange(e, b, n, low, high);
      ChangeLands(s, ps, m, Halved(e, n, low, high), Halved(b, n, low, high));
    }
  }

  lemma HalvedChange(e: State, b: State, n: nat, low: int, high: int)
    requires SameChange(e, e, b, b)
    ensures SameChange(e, Halved(e, n, low, high), b, Halved(b, n, low, high))
  {
    hide Assigned, SameChange;
    PlaceChange(e, e, b, b, LowHalf(n), low);
    PlaceChange(e, Assigned(e, LowHalf(n), low), b, Assigned(b, LowHalf(n), low), HighHalf(n), high);
  }

  /** MUL, IMUL, DIV and IDIV of the accumulator by a ModR/M operand, F6 and F7 with reg fields 4 to 7. */
  lemma StepMultiplyDivide(s: State, ps: seq<u8>, opcode: u8, rest: seq<u8>, env: Env)
    requires At(s, ps, opcode, rest) && 0xF6 <= opcode <= 0xF7 && HasRm(s, ps, rest) && RegOf(rest[0]) >= 4
    ensures var n := OperandBytes(s, ps, ByteOrWord(opcode));
            var p := RmPlace(s, ps, rest, n);
            && IsPlace(s.mem, p)
            && Step.Step(s, env) ==
                 if !RmDecodes(s, ps, rest) then Halted(HostUndefined)
                 else Outcome(s, Behind(s, |ps| + 1 + RmBytes(s, ps, rest)), RegOf(rest[0]), n, Contents(s, p))
  {
    hide CodeIs, Step.Step, Execute, InstructionTable, Behind, Finished, Fixup, PlainOpcode, Executing, PlaceOf;
    hide RmDecodes, Contents, RmBytes, RmPlace, TextAddress, Outcome, SpecialResult, Halved, Doubled, Bytes;
    var (reg, size) := (RegOf(rest[0]), ActualSize(ByteOrWord(opcode), Wide(s, ps)));
    var n := Width(size);
    GroupIs(opcode, reg);
    RmIsPlace(s, ps, rest, n);
    var i := StepModrmText(s, ps, opcode, rest, env, GroupRow(opcode, reg));
    if RmDecodes(s, ps, rest) {
      var (p, m) := (RmPlace(s, ps, rest, n), RmBytes(s, ps, rest));
      ExecutingKeeps(s, ps, m);
      MultiplyDivide(s, i, env, reg, size, p);
      OutcomeLands(s, ps, m, reg, n, Contents(s, p));
    }
  }

  lemma MultiplyDivide(s: State, i: Instruction, env: Env, reg: RegIndex, size: Size, p: Place)
    requires i.inst.opType.OpAluSpecial? && i.inst.flags == WRITE_DX && i.inst.subType == reg >= 4
    requires i.s.regs == s.regs && i.s.mem == s.mem && i.s.eflags == s.eflags && FlagSize(size)
    requires Denotes(s, i.s, i.dst, Held(LowHalf(Width(size)))) && i.dst.size == size
    requires Denotes(s, i.s, i.src2, Held(p)) && i.src2.size == size
    requires var x := if reg < ALU_DIV then Held(LowHalf(Width(size))) else if size == Sz8 then Held(LowWord(EAX))
        else Pair;
             Denotes(s, i.s, i.src1, x) && (x.Pair? ==> i.src1.size == if size == Sz16 then Sz32 else Sz64)
    ensures IsPlace(s.mem, p) && Execute(i, env) == Outcome(s, i.s, reg, Width(size), Contents(s, p))
  {
    hide Execute, Outcome, SpecialResult, Halved, Doubled, Bytes, ReadSource, Contents, PlaceOf, Location;
    var x := if reg < ALU_DIV then Held(LowHalf(Width(size))) else if size == Sz8 then Held(LowWord(EAX)) else Pair;
    DividendRead(s, i.s, i.src1, reg, size, x);
    ReadsSource(s, i.s, i.src2, Held(p));
    AmountIs(s, p);
    Below(i.s, i.src2);
    SamePlaces(s, i.s, p, 0);
    DoubleFits(s, size);
    var n := Width(size);
    RunSpecial(i, env, if reg < ALU_DIV then Contents(s, LowHalf(n)) else Doubled(s, n), Contents(s, p), n);
    SpecialIs(s, i.s, reg, size, Contents(s, p), i.src1.size);
  }

  lemma AmountIs(s: State, p: Place)
    requires IsPlace(s.mem, p)
    ensures Amount(s, Held(p)) == Contents(s, p)
  {
  }

  // ----- CBW and CWD -----

  /** CBW and CWDE, 98: the lower half of the accumulator is extended with its sign. */
  lemma StepExtend(s: State, ps: seq<u8>, rest: seq<u8>, env: Env)
    requires At(s, ps, 0x98, rest)
    ensures var n := OperandBytes(s, ps, Sz1632);
            var half := Register(EAX, n / 2);
            Step.Step(s, env) ==
              Ok(Assigned(Behind(s, |ps| + 1), Register(EAX, n), SignedBytes(Contents(s, half), n / 2)))
  {
    hide CodeIs, Step.Step, Execute, InstructionTable, Behind, Finished, Fixup, PlainOpcode, Executing, PlaceOf;
    hide Contents, Assigned, SignedBytes;
    ExtendRows();
    var i := StepPlainText(s, ps, 0x98, rest, env, EXTEND);
    var (n, half) := (OperandBytes(s, ps, Sz1632), Register(EAX, OperandBytes(s, ps, Sz1632) / 2));
    ExecutingKeeps(s, ps, 0);
    ExtendsTo(s, i, env, half, Register(EAX, n), ActualSize(Sz816, Wide(s, ps)));
    AssignmentLands(s, ps, 0, Register(EAX, n), SignedBytes(Contents(s, half), n / 2));
  }

  lemma ExtendsTo(s: State, i: Instruction, env: Env, p: Place, q: Place, size: Size)
    requires i.inst == EXTEND && (size == Sz8 || size == Sz16) && i.src1.size == size
    requires i.s.regs == s.regs && i.s.mem == s.mem && Denotes(s, i.s, i.src1, Held(p))
        && Denotes(s, i.s, i.dst, Held(q))
    ensures Execute(i, env) == Ok(Assigned(i.s, q, SignedBytes(Contents(s, p), Width(size))))
  {
    hide Execute, PlaceOf, Contents, Assigned, SignedBytes, ReadSource, WriteDest, Location;
    ReadsSource(s, i.s, i.src1, Held(p));
    Below(i.s, i.src1);
    SamePlaces(s, i.s, p, 0);
    AmountIs(s, p);
    SignedIs(Contents(s, p), size);
    RunExtend(i, env, Contents(s, p));
    WritesPlace(i.s, i.dst, SignedBytes(Contents(s, p), Width(size)));
  }

  const EXTEND := Op(OpCbwCwde, 0, 0, ConstReg(Sz1632, EAX), ConstReg(Sz816, EAX), NONE)
  const EXTEND_PAIR := Op(OpCwdCdq, 0, 0, Operand(KEdxEax, Sz3264, 0), ConstReg(Sz1632, EAX), NONE)

  lemma ExtendRows()
    ensures InstructionTable(0x98) == EXTEND && PlainOpcode(0x98) && Fixup(EXTEND, 0) == Ok(EXTEND)
    ensures InstructionTable(0x99) == EXTEND_PAIR && PlainOpcode(0x99) && Fixup(EXTEND_PAIR, 0) == Ok(EXTEND_PAIR)
  {
  }

  lemma RunExtend(i: Instruction, env: Env, v: u32)
    requires i.inst == EXTEND && ReadSource(i.s, i.src1) == Ok(v) && (i.src1.size == Sz8 || i.src1.size == Sz16)
    ensures Execute(i, env) == WriteDest(i.s, i.dst, SignedAt(v, OperandBits(i.src1.size)))
  {
    hide ReadSource, WriteDest;
  }

  /** CWD and CDQ, 99: DX or EDX becomes the sign of the accumulator, which stays. */
  lemma StepExtendPair(s: State, ps: seq<u8>, rest: seq<u8>, env: Env)
    requires At(s, ps, 0x99, rest)
    ensures var n := OperandBytes(s, ps, Sz1632);
            Step.Step(s, env) ==
              Ok(Assigned(Behind(s, |ps| + 1), HighHalf(n), if 2 * Contents(s, LowHalf(n)) >= Bytes(n) then -1 else 0))
  {
    hide CodeIs, Step.Step, Execute, InstructionTable, Behind, Finished, Fixup, PlainOpcode, Executing, PlaceOf;
    hide Contents, Assigned, SignedBytes;
    ExtendRows();
    var i := StepPlainText(s, ps, 0x99, rest, env, EXTEND_PAIR);
    var n := OperandBytes(s, ps, Sz1632);
    ExecutingKeeps(s, ps, 0);
    ExtendsPair(s, i, env, ActualSize(Sz1632, Wide(s, ps)));
    AssignmentLands(s, ps, 0, HighHalf(n), if 2 * Contents(s, LowHalf(n)) >= Bytes(n) then -1 else 0);
  }

  lemma ExtendsPair(s: State, i: Instruction, env: Env, size: Size)
    requires i.inst == EXTEND_PAIR && (size == Sz16 || size == Sz32) && i.src1.size == size
    requires i.s.regs == s.regs && i.s.mem == s.mem && Denotes(s, i.s, i.src1, Held(LowHalf(Width(size))))
    requires i.dst.kind.DEdxEax? && i.dst.size == if size == Sz16 then Sz32 else Sz64
    ensures var n := Width(size);
            Execute(i, env) == Ok(Assigned(i.s, HighHalf(n), if 2 * Contents(s, LowHalf(n)) >= Bytes(n) then -1 else 0))
  {
    hide Execute, PlaceOf, Contents, Assigned, ReadSource, WriteDest, Location, Bytes;
    var n := Width(size);
    ReadsSource(s, i.s, i.src1, Held(LowHalf(n)));
    Below(i.s, i.src1);
    SamePlaces(s, i.s, LowHalf(n), 0);
    AmountIs(s, LowHalf(n));
    RunExtendPair(i, env, Contents(s, LowHalf(n)));
    PairWritten(i.s, size, i.dst, Contents(s, LowHalf(n)));
  }

  lemma RunExtendPair(i: Instruction, env: Env, v: u32)
    requires i.inst == EXTEND_PAIR && ReadSource(i.s, i.src1) == Ok(v) && (i.src1.size == Sz16 || i.src1.size == Sz32)
    ensures Execute(i, env) == WriteDest(i.s, i.dst, SignedAt(v, OperandBits(i.src1.size)))
  {
    hide ReadSource, WriteDest;
  }

  lemma PairWritten(s: State, size: Size, d: Decoded, v: int)
    requires (size == Sz16 || size == Sz32) && v == Contents(s, LowHalf(Width(size)))
    requires d.kind.DEdxEax? && d.size == if size == Sz16 then Sz32 else Sz64
    ensures WriteDest(s, d, SignedAt(v, OperandBits(size))) ==
            Ok(Assigned(s, HighHalf(Width(size)), if 2 * v >= Bytes(Width(size)) then -1 else 0))
  {
    ShortPowers();
    if size == Sz16 { WordPair(s, v); } else { DwordPair(s, v); }
  }

  lemma WordPair(s: State, v: u16)
    requires v == s.regs[EAX] % TWO16
    ensures SetReg16(SetReg16(s, EDX, Signed16(v) / TWO16), EAX, Signed16(v)) ==
            Assigned(s, LowWord(EDX), if v >= 0x8000 then -1 else 0)
  {
    SplitRegister(s.regs[EAX]);
    SplitRegister(s.regs[EDX]);
    SignedHalves(v, TWO16, Signed16(v));
    var (r, w) := (s.regs, Signed16(v));
    assert PutLow16(r[EAX], w) == r[EAX];
    assert r[EDX := PutLow16(r[EDX], w / TWO16)][EAX := r[EAX]] == r[EDX := PutLow16(r[EDX], w / TWO16)];
  }

  lemma DwordPair(s: State, v: u32)
    requires v == s.regs[EAX]
    ensures SetReg32(SetReg32(s, EDX, Signed32(v) / TWO32), EAX, Signed32(v)) ==
            Assigned(s, Whole(EDX), if v >= 0x8000_0000 then -1 else 0)
  {
    SignedHalves(v, TWO32, Signed32(v));
    var r := s.regs;
    assert r[EDX := Wrap32(Signed32(v) / TWO32)][EAX := r[EAX]] == r[EDX := Wrap32(Signed32(v) / TWO32)];
  }

  lemma SignedHalves(v: nat, m: int, w: int)
    requires m > 0 && v < m && w == if 2 * v >= m then v - m else v
    ensures w % m == v && w / m == if 2 * v >= m then -1 else 0
  {
    DivModUnique(w, if 2 * v >= m then -1 else 0, v, m);
  }

  // ----- IN, INT and MOV from a segment register -----

  function InEntry(opcode: u8): Op
  {
    var size := ByteOrWord(opcode);
    Op(OpIn, 0, 0, ConstReg(size, EAX), if opcode < 0xE8 then Imm(Sz8) else ConstReg(Sz16, EDX), NONE)
  }

  lemma InRow(opcode: u8)
    requires 0xE4 <= opcode <= 0xE5 || 0xEC <= opcode <= 0xED
    ensures InstructionTable(opcode) == InEntry(opcode) && PlainOpcode(opcode)
    ensures Fixup(InEntry(opcode), 0) == Ok(InEntry(opcode))
  {
  }

  /** IN from the port in the text, E4 and E5, or in DX, EC and ED. */
  lemma StepIn(s: State, ps: seq<u8>, opcode: u8, rest: seq<u8>, env: Env)
    requires At(s, ps, opcode, rest) && (0xE4 <= opcode <= 0xE5 || 0xEC <= opcode <= 0xED)
    requires opcode < 0xE8 ==> |rest| >= 1
    ensures var n := OperandBytes(s, ps, ByteOrWord(opcode));
            var (port, k) := if opcode < 0xE8 then (rest[0], 1) else (Contents(s, LowWord(EDX)), 0);
            Step.Step(s, env) == Ok(Assigned(Behind(s, |ps| + 1 + k), Register(EAX, n), env.port(Wrap16(port))))
  {
    hide CodeIs, Step.Step, Execute, InstructionTable, Behind, Finished, Fixup, PlainOpcode, Executing, PlaceOf;
    hide Contents, Assigned, Number;
    InRow(opcode);
    var i := StepPlainText(s, ps, opcode, rest, env, InEntry(opcode));
    var n := OperandBytes(s, ps, ByteOrWord(opcode));
    if opcode < 0xE8 { NumberOfOne(rest); assert rest[0..0 + 1] == rest[..1]; }
    var (x, k) := if opcode < 0xE8 then (Value(rest[0]), 1) else (Held(LowWord(EDX)), 0);
    ExecutingKeeps(s, ps, k);
    ReadsSource(s, i.s, i.src1, x);
    RunIn(i, env, Amount(s, x));
    WritesPlace(i.s, i.dst, env.port(Wrap16(Amount(s, x))));
    AssignmentLands(s, ps, k, Register(EAX, n), env.port(Wrap16(Amount(s, x))));
  }

  lemma RunIn(i: Instruction, env: Env, v: u32)
    requires i.inst.opType.OpIn? && ReadSource(i.s, i.src1) == Ok(v)
    ensures Execute(i, env) == WriteDest(i.s, i.dst, env.port(Wrap16(v)))
  {
    hide ReadSource, WriteDest;
  }

  const FROM_SEGMENT := Op(OpMov, 0, USE_MODRM, Rm(Sz1632), Operand(KSegRegModrm, Sz16, 0), NONE)

  lemma FromSegmentRow(reg: RegIndex)
    ensures InstructionTable(0x8C) == FROM_SEGMENT && PlainOpcode(0x8C) && Fixup(FROM_SEGMENT, reg) == Ok(FROM_SEGMENT)
  {
  }

  /** MOV from a segment register, 8C: its selector, extended with zeros at 32 bits; there are no registers 6 and 7. */
  lemma StepFromSegment(s: State, ps: seq<u8>, rest: seq<u8>, env: Env)
    requires At(s, ps, 0x8C, rest) && HasRm(s, ps, rest)
    ensures var p := RmPlace(s, ps, rest, OperandBytes(s, ps, Sz1632));
            && IsPlace(s.mem, p)
            && Step.Step(s, env) ==
                 if !RmDecodes(s, ps, rest) || RegOf(rest[0]) >= 6 then Halted(HostUndefined)
                 else Ok(Assigned(Behind(s, |ps| + 1 + RmBytes(s, ps, rest)), p, s.segs[RegOf(rest[0])].selector))
  {
    hide CodeIs, Step.Step, Execute, InstructionTable, Behind, Finished, Fixup, PlainOpcode, Executing, PlaceOf;
    hide RmDecodes, RmBytes, RmPlace, TextAddress, Assigned;
    FromSegmentRow(RegOf(rest[0]));
    RmIsPlace(s, ps, rest, OperandBytes(s, ps, Sz1632));
    var i := StepModrmText(s, ps, 0x8C, rest, env, FROM_SEGMENT);
    if RmDecodes(s, ps, rest) {
      var (p, m, r) := (RmPlace(s, ps, rest, OperandBytes(s, ps, Sz1632)), RmBytes(s, ps, rest), RegOf(rest[0]));
      ExecutingKeeps(s, ps, m);
      SelectorRead(s, i.s, i.src1, r);
      RunMov(i, env);
      HaltsStay(s);
      if r < 6 {
        WritesPlace(i.s, i.dst, s.segs[r].selector);
        AssignmentLands(s, ps, m, p, s.segs[r].selector);
      }
    }
  }

  lemma RunMov(i: Instruction, env: Env)
    requires i.inst.opType.OpMov?
    ensures Execute(i, env) == match ReadSource(i.s, i.src1)
                               case Ok(v) => WriteDest(i.s, i.dst, Wrap32(v))
                               case Halted(why) => Halted(why)
  {
    hide ReadSource, WriteDest;
  }

  /** INT, CD and CC: vector 80h calls the host with EAX and the address four above ESP; every other vector, and the 0
      of CC, is a service outside the model. */
  lemma StepInt(s: State, ps: seq<u8>, opcode: u8, rest: seq<u8>, env: Env)
    requires At(s, ps, opcode, rest) && 0xCC <= opcode <= 0xCD && (opcode == 0xCD ==> |rest| >= 1)
    ensures var (vector, k) := if opcode == 0xCD then (rest[0], 1) else (0, 0);
            var h := env.host(s.regs[EAX], Wrap32(s.regs[ESP] as int + 4), s.mem);
            Step.Step(s, env) ==
              if vector != 0x80 then Halted(HostService(vector))
              else Ok(Behind(s, |ps| + 1 + k).(regs := s.regs[EAX := h.eax], mem := HostStores(s.mem, h.stores)))
  {
    hide CodeIs, Step.Step, Execute, InstructionTable, Behind, Finished, Fixup, PlainOpcode, Executing, PlaceOf;
    hide Number, HostStores, Wrap32;
    IntRow(opcode);
    var i := StepPlainText(s, ps, opcode, rest, env, IntEntry(opcode));
    if opcode == 0xCD { NumberOfOne(rest); assert rest[0..0 + 1] == rest[..1]; }
    var (vector, k) := if opcode == 0xCD then (rest[0], 1) else (0, 0);
    NoChange(s, ps, k);
    ExecutingKeeps(s, ps, k);
    ReadsSource(s, i.s, i.src1, Value(vector));
    RunIntTo(i, env, vector);
    HaltsStay(s);
    var h := env.host(s.regs[EAX], Wrap32(s.regs[ESP] as int + 4), s.mem);
    var (regs, mem) := (s.regs[EAX := h.eax], HostStores(s.mem, h.stores));
    ChangeLands(s, ps, k, i.s.(regs := regs, mem := mem), Behind(s, |ps| + 1 + k).(regs := regs, mem := mem));
  }

  function IntEntry(opcode: u8): Op {
    Op(OpInt, 0, 0, NONE, if opcode == 0xCD then Imm(Sz8) else Constant(Sz8, 0), NONE)
  }

  lemma IntRow(opcode: u8)
    requires 0xCC <= opcode <= 0xCD
    ensures InstructionTable(opcode) == IntEntry(opcode) && PlainOpcode(opcode)
    ensures Fixup(IntEntry(opcode), 0) == Ok(IntEntry(opcode))
  {
  }

  lemma RunIntTo(i: Instruction, env: Env, vector: u32)
    requires i.inst.opType.OpInt? && ReadSource(i.s, i.src1) == Ok(vector)
    ensures var h := env.host(i.s.regs[EAX], Wrap32(i.s.regs[ESP] as int + 4), i.s.mem);
            Execute(i, env) ==
              if vector != 0x80 then Halted(HostService(vector))
              else Ok(i.s.(regs := i.s.regs[EAX := h.eax], mem := HostStores(i.s.mem, h.stores)))
  {
    hide ReadSource, HostStores;
    WrapSmall(vector);
  }

  // ----- IMUL into a register -----

  function ImulEntry(opcode: u8): Op
  {
    Op(OpAluSpecial, ALU_IMUL, USE_MODRM, I386.RegField(Sz1632), Rm(Sz1632),
       if opcode == 0x69 then Imm(Sz1632) else Operand(KSimm, Sz8, 0))
  }

  lemma ImulRow(opcode: u8, reg: RegIndex)
    requires opcode == 0x69 || opcode == 0x6B
    ensures InstructionTable(opcode) == ImulEntry(opcode) && PlainOpcode(opcode)
    ensures Fixup(ImulEntry(opcode), reg) == Ok(ImulEntry(opcode))
  {
  }

  /** IMUL of a ModR/M operand and an immediate, 69 and 6B: the register takes the signed product, and no flag
      changes. */
  lemma StepImul(s: State, ps: seq<u8>, opcode: u8, rest: seq<u8>, env: Env)
    requires At(s, ps, opcode, rest) && (opcode == 0x69 || opcode == 0x6B) && HasRm(s, ps, rest)
    requires RmBytes(s, ps, rest) + OperandBytes(s, ps, if opcode == 0x69 then Sz1632 else Sz8) <= |rest|
    ensures var (m, n) := (RmBytes(s, ps, rest), OperandBytes(s, ps, Sz1632));
            var (p, k) := (RmPlace(s, ps, rest, n), if opcode == 0x69 then n else 1);
            && IsPlace(s.mem, p)
            && Step.Step(s, env) ==
                 if !RmDecodes(s, ps, rest) then Halted(HostUndefined)
                 else Ok(Assigned(Behind(s, |ps| + 1 + m + k), RegPlace(rest, n),
                                  SignedBytes(Contents(s, p), n) * SignedBytes(Number(rest[m..m + k]), k)))
  {
    hide CodeIs, Step.Step, Execute, InstructionTable, Behind, Finished, Fixup, PlainOpcode, Executing, PlaceOf;
    hide RmDecodes, Contents, RmBytes, RmPlace, TextAddress, Assigned, Number, SignedNumber, SignedBytes;
    ImulRow(opcode, RegOf(rest[0]));
    var size := ActualSize(Sz1632, Wide(s, ps));
    var n := Width(size);
    RmIsPlace(s, ps, rest, n);
    var i := StepModrmText(s, ps, opcode, rest, env, ImulEntry(opcode));
    if RmDecodes(s, ps, rest) {
      var (m, p, k) := (RmBytes(s, ps, rest), RmPlace(s, ps, rest, n), if opcode == 0x69 then n else 1);
      var bytes := rest[m..m + k];
      ExecutingKeeps(s, ps, m + k);
      var y := if opcode == 0x69 then Number(bytes) else SignedNumber(bytes) % TWO32;
      RunImul(s, i, env, size, RegPlace(rest, n), p, Value(y));
      FactorIs(bytes, y, size, opcode == 0x6B);
      AssignmentLands(s, ps, m + k, RegPlace(rest, n),
                      SignedBytes(Contents(s, p), n) * SignedBytes(Number(bytes), k));
    }
  }

  lemma {:induction false} NumberBelow(bytes: seq<u8>)
    ensures Number(bytes) < Bytes(|bytes|)
  {
    if bytes != [] { NumberBelow(bytes[1..]); }
  }

  lemma FactorIs(bytes: seq<u8>, y: int, size: Size, short: bool)
    requires (size == Sz16 || size == Sz32) && |bytes| == (if short then 1 else Width(size))
    requires y == if short then SignedNumber(bytes) % TWO32 else Number(bytes)
    ensures SignedAt(y, OperandBits(size)) == SignedBytes(Number(bytes), |bytes|)
  {
    NumberBelow(bytes);
    ShortPowers();
    hide Number;
    if short {
      var v := Number(bytes);
      DivModUnique(v, 0, v, TWO8);
      var w := SignedBytes(v, 1);
      assert SignedNumber(bytes) == w;
      if w < 0 { DivModUnique(w, -1, TWO32 + w, TWO32); DivModUnique(w, -1, TWO16 + w, TWO16); NarrowWrap(w); }
      else { DivModUnique(w, 0, w, TWO32); DivModUnique(w, 0, w, TWO16); }
      SignedAgain(w);
    } else {
      SignedIs(y, size);
    }
  }

  lemma SignedAgain(w: int)
    requires -0x80 <= w < 0x80
    ensures Signed16(Wrap32(w)) == w && Signed32(Wrap32(w)) == w
  {
    NarrowWrap(w);
    if w < 0 {
      DivModUnique(w, -1, TWO32 + w, TWO32);
      DivModUnique(w, -1, TWO16 + w, TWO16);
    } else {
      DivModUnique(w, 0, w, TWO32);
      DivModUnique(w, 0, w, TWO16);
    }
    WrapSmall(Wrap32(w));
  }

  lemma RunImul(s: State, i: Instruction, env: Env, size: Size, q: Place, p: Place, y: Source)
    requires i.inst.opType.OpAluSpecial? && i.inst.subType == ALU_IMUL && !WritesDx(i.inst.flags)
    requires (size == Sz16 || size == Sz32) && i.dst.size == size && i.src1.size == size
    requires i.s.regs == s.regs && i.s.mem == s.mem && y.Value? && Denotes(s, i.s, i.src2, y)
    requires Denotes(s, i.s, i.src1, Held(p)) && Denotes(s, i.s, i.dst, Held(q))
    ensures Execute(i, env) ==
            Ok(Assigned(i.s, q, SignedBytes(Contents(s, p), Width(size)) * SignedAt(y.v, OperandBits(size))))
  {
    hide PlaceOf, Contents, Assigned, SignedBytes, ReadSource, WriteDest, Location, SignedAt, HighPart;
    ReadsSource(s, i.s, i.src1, Held(p));
    ReadsSource(s, i.s, i.src2, y);
    Below(i.s, i.src1);
    SamePlaces(s, i.s, p, 0);
    AmountIs(s, p);
    SignedIs(Contents(s, p), size);
    WritesPlace(i.s, i.dst, SignedBytes(Contents(s, p), Width(size)) * SignedAt(y.v, OperandBits(size)));
    assert i.s.(eflags := i.s.eflags) == i.s;
  }
}
