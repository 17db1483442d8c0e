/** Whole arithmetic and logical instructions, behind any prefixes: what the destination holds afterwards and what every
    flag means. */
module AluSteps {
  import opened Words
  import opened I386
  import opened Machine
  import opened Step
  import opened RunInvariants
  import opened Disassembler
  import opened Instructions
  import opened FlagLaws
  import opened Places
  import opened Texts
  import opened MoveSteps
  import opened StackSteps
  import ShiftLaws

  // ----- Results and flags, by numbers -----

  /** The result before it is cut off at the size; `c` is the carry before. */
  function AluValue(op: nat, x: int, y: int, c: nat): int
    requires op < 8
  {
    match op
    case 0 => x + y
    case 1 => Or32(Wrap32(x), Wrap32(y))
    case 2 => x + y + c
    case 3 => x - y - c
    case 4 => And32(Wrap32(x), Wrap32(y))
    case 6 => Xor32(Wrap32(x), Wrap32(y))
    case _ => x - y
  }

  predicate Logical(op: nat) { op == ALU_OR || op == ALU_AND || op == ALU_XOR }
  predicate Adds(op: nat) { op == ALU_ADD || op == ALU_ADC }

  /** ZF, SF and PF look at the result alone. */
  ghost predicate ResultFlags(z: int, size: Size, f: Bits32)
  {
    && (f[ZERO] <==> z % Limit(size) == 0)
    && (f[SIGN] <==> z % Limit(size) >= Limit(size) / 2)
    && (f[PARITY] <==> Ones(BitsOf(z % TWO8, 8)) % 2 == 0)
  }

  /** OF says that the signed result is out of range, AF that the low four bits carry or borrow. */
  ghost predicate ArithmeticFlags(add: bool, x: int, y: int, c: nat, size: Size, f: Bits32)
  {
    && (f[OVERFLOW] <==>
          !InSignedRange(if add then SignedOf(x, size) + SignedOf(y, size) + c
                         else SignedOf(x, size) - SignedOf(y, size) - c, size))
    && (f[AUX] <==> if add then x % 16 + y % 16 + c >= 16 else x % 16 < y % 16 + c)
  }

  predicate OtherFlagsKept(e: Bits32, f: Bits32)
  {
    forall k :: 0 <= k < 32 && k !in {CARRY, PARITY, AUX, ZERO, SIGN, OVERFLOW} ==> f[k] == e[k]
  }

  /** Every flag after the operation. CF is the bit above the operand's size in the 32-bit result, which a byte or a
      word has and a double word has not. */
  ghost predicate AluFlags(op: nat, e: Bits32, x: int, y: int, size: Size, f: Bits32)
    requires op < 8
  {
    var c := if op == ALU_ADC || op == ALU_SBB then Bit(e[CARRY]) else 0;
    var z := AluValue(op, x, y, c);
    && ResultFlags(z, size, f) && OtherFlagsKept(e, f)
    && (Logical(op) ==> !f[CARRY] && !f[OVERFLOW] && f[AUX] == e[AUX])
    && (!Logical(op) ==> ArithmeticFlags(Adds(op), x, y, c, size, f))
    && (!Logical(op) ==> (f[CARRY] <==> size != Sz32 && z % TWO32 / Limit(size) % 2 == 1))
  }

  lemma ResultMeans(z: int, size: Size)
    requires FlagSize(size)
    ensures ZeroBits(Wrap32(z), size) <==> z % Limit(size) == 0
    ensures SignBit(Wrap32(z), size) <==> z % Limit(size) >= Limit(size) / 2
    ensures OddParity(Wrap32(z)) <==> Ones(BitsOf(z % TWO8, 8)) % 2 == 1
  {
    hide Wrap32, SignBit, ZeroBits, Limit, Reduced, Ones, BitsOf;
    ReducedSign(Wrap32(z), size);
    ReducedTwice(z, size);
    ReducedIs(z, size);
    NarrowWrap(z);
  }

  lemma SumMeans(x: u32, y: u32, c: nat, size: Size)
    requires FlagSize(size) && c <= 1
    ensures var r := Wrap32(x + y + c);
            && (OverflowAdd(x, y, r, size) <==> !InSignedRange(SignedOf(x, size) + SignedOf(y, size) + c, size))
            && (TestBit(x, 16) != (TestBit(y, 16) != TestBit(r, 16)) <==> x % 16 + y % 16 + c >= 16)
  {
    hide Wrap32, SignedOf, OverflowAdd, InSignedRange, TestBit;
    AddSign(x, y, c, Wrap32(x + y + c), size);
    AuxOfSum(x, y, c, Wrap32(x + y + c));
  }

  lemma DifferenceMeans(x: u32, y: u32, c: nat, size: Size)
    requires FlagSize(size) && c <= 1
    ensures var r := Wrap32(x - y - c);
            && (OverflowSub(x, y, r, size) <==> !InSignedRange(SignedOf(x, size) - SignedOf(y, size) - c, size))
            && (TestBit(x, 16) != (TestBit(y, 16) != TestBit(r, 16)) <==> x % 16 < y % 16 + c)
  {
    hide Wrap32, SignedOf, OverflowSub, InSignedRange, TestBit;
    SubSign(x, y, c, Wrap32(x - y - c), size);
    AuxOfDifference(x, y, c, Wrap32(x - y - c));
  }

  lemma CarryMeans(r: u32, size: Size)
    requires FlagSize(size)
    ensures CarryBit(r, size) <==> size != Sz32 && r / Limit(size) % 2 == 1
  {
    TestedBit(r, Limit(size));
    WrapSmall(r);
  }

  lemma SumFlags(e: Bits32, x: u32, y: u32, c: nat, size: Size)
    requires FlagSize(size) && c <= 1
    ensures var f := AddFlags(e, x, y, Wrap32(x + y + c), size);
            && ResultFlags(x + y + c, size, f) && OtherFlagsKept(e, f) && ArithmeticFlags(true, x, y, c, size, f)
            && (f[CARRY] <==> size != Sz32 && (x + y + c) % TWO32 / Limit(size) % 2 == 1)
  {
    hide SignBit, ZeroBits, CarryBit, OddParity, OverflowAdd, InSignedRange, SignedOf, Limit, TestBit, Ones, BitsOf;
    ResultMeans(x + y + c, size);
    CarryMeans(Wrap32(x + y + c), size);
    SumMeans(x, y, c, size);
  }

  lemma DifferenceFlags(e: Bits32, x: u32, y: u32, c: nat, size: Size)
    requires FlagSize(size) && c <= 1
    ensures var f := SubFlags(e, x, y, Wrap32(x - y - c), size);
            && ResultFlags(x - y - c, size, f) && OtherFlagsKept(e, f) && ArithmeticFlags(false, x, y, c, size, f)
            && (f[CARRY] <==> size != Sz32 && (x - y - c) % TWO32 / Limit(size) % 2 == 1)
  {
    hide SignBit, ZeroBits, CarryBit, OddParity, OverflowSub, InSignedRange, SignedOf, Limit, TestBit, Ones, BitsOf;
    ResultMeans(x - y - c, size);
    CarryMeans(Wrap32(x - y - c), size);
    DifferenceMeans(x, y, c, size);
  }

  lemma LogicMeans(e: Bits32, z: u32, size: Size)
    requires FlagSize(size)
    ensures var f := LogicFlags(e, z, size);
            ResultFlags(z, size, f) && OtherFlagsKept(e, f) && !f[CARRY] && !f[OVERFLOW] && f[AUX] == e[AUX]
  {
    hide SignBit, ZeroBits, OddParity, Limit, Ones, BitsOf;
    ResultMeans(z, size);
    WrapSmall(z);
  }

  /** Each of the eight operations computes its value, and its flags mean what they say. */
  lemma AluMeans(op: nat, e: Bits32, x: u32, y: u32, size: Size)
    requires op < 8 && FlagSize(size)
    ensures var c := if op == ALU_ADC || op == ALU_SBB then Bit(e[CARRY]) else 0;
            var r := AluResult(op, e, x, y, size);
            r.Ok? && r.value.0 == AluValue(op, x, y, c) % TWO32 && AluFlags(op, e, x, y, size, r.value.1)
  {
    hide AddFlags, SubFlags, LogicFlags, ResultFlags, ArithmeticFlags, OtherFlagsKept, And32, Or32, Xor32, Limit;
    var c := if op == ALU_ADC || op == ALU_SBB then Bit(e[CARRY]) else 0;
    var z := AluValue(op, x, y, c);
    WrapSmall(x);
    WrapSmall(y);
    if Logical(op) {
      LogicMeans(e, z, size);
      WrapSmall(z);
    } else if Adds(op) {
      SumFlags(e, x, y, c, size);
    } else {
      DifferenceFlags(e, x, y, c, size);
    }
  }

  // ----- The operation on places -----

  /** CMP stores nothing. */
  function Stored(b: State, op: nat, p: Place, z: int): State
    requires IsPlace(b.mem, p)
  {
    if op == ALU_CMP then b else Assigned(b, p, z)
  }

  /** `b` has become `t`: the place holds the result of its contents and `y`, but for CMP, and the flags are those of
      the operation. */
  ghost predicate AluEffect(s: State, b: State, t: State, op: nat, p: Place, y: int, size: Size)
    requires op < 8 && IsPlace(s.mem, p) && s.mem == b.mem
  {
    var x := Contents(s, p);
    && t == Stored(b, op, p, AluValue(op, x, y, Bit(s.eflags[CARRY]))).(eflags := t.eflags)
    && AluFlags(op, s.eflags, x, y, size, t.eflags)
  }

  lemma RunAlu(s: State, i: Instruction, env: Env, op: nat, p: Place, x: Source)
    requires i.inst.opType.OpAlu? && op == (if i.inst.subType == ALU_MULTI then i.reg else i.inst.subType) < 8
    requires i.s.regs == s.regs && i.s.mem == s.mem && i.s.eflags == s.eflags && FlagSize(i.src1.size)
    requires Denotes(s, i.s, i.src1, Held(p)) && Denotes(s, i.s, i.src2, x) && (x.Held? || x.Value?)
    requires op != ALU_CMP ==> Denotes(s, i.s, i.dst, Held(p))
    ensures Execute(i, env).Ok? && AluEffect(s, i.s, Execute(i, env).value, op, p, Amount(s, x), i.src1.size)
  {
    hide PlaceOf, Assigned, ReadSource, WriteDest, Amount, Location, AluResult, AluFlags, AluValue, Contents;
    var (a, b) := (Amount(s, Held(p)), Amount(s, x));
    ReadsSource(s, i.s, i.src1, Held(p));
    ReadsSource(s, i.s, i.src2, x);
    AluMeans(op, s.eflags, a, b, i.src1.size);
    var c := if op == ALU_ADC || op == ALU_SBB then Bit(s.eflags[CARRY]) else 0;
    SameValue(op, a, b, c, Bit(s.eflags[CARRY]));
    var f := AluResult(op, s.eflags, a, b, i.src1.size).value.1;
    var z := AluValue(op, a, b, c);
    AmountOfPlace(s, p);
    if op != ALU_CMP {
      var u := i.s.(eflags := f);
      SamePlaceOf(i.s, u, i.dst);
      WritesPlace(u, i.dst, z % TWO32);
      AssignedWrapped(u, p, z);
      AssignedFlags(i.s, p, z, f);
    }
  }

  lemma AmountOfPlace(s: State, p: Place)
    requires IsPlace(s.mem, p)
    ensures Amount(s, Held(p)) == Contents(s, p)
  {
  }

  lemma SameValue(op: nat, x: int, y: int, c: nat, d: nat)
    requires op < 8 && (op == ALU_ADC || op == ALU_SBB ==> c == d)
    ensures AluValue(op, x, y, c) == AluValue(op, x, y, d)
  {
    hide And32, Or32, Xor32;
  }

  lemma EffectLands(s: State, ps: seq<u8>, n: nat, t: State, op: nat, p: Place, y: int, size: Size)
    requires NothingPending(s) && op < 8 && IsPlace(s.mem, p)
    requires AluEffect(s, Executing(s, ps, n), t, op, p, y, size)
    ensures Finished(s, Ok(t)).Ok?
    ensures AluEffect(s, Behind(s, |ps| + 1 + n), Finished(s, Ok(t)).value, op, p, y, size)
  {
    hide Executing, Behind, Finished, AluFlags, AluValue, Contents, Stored, SameChange, Bit;
    ExecutingIs(s, ps, n);
    var (e, b) := (Executing(s, ps, n), Behind(s, |ps| + 1 + n));
    var z := AluValue(op, Contents(s, p), y, Bit(s.eflags[CARRY]));
    NoChange(s, ps, n);
    StoredChange(e, b, op, p, z);
    FlagsChanged(e, Stored(e, op, p, z), b, Stored(b, op, p, z), t.eflags);
    ChangeLands(s, ps, n, t, Stored(b, op, p, z).(eflags := t.eflags));
  }

  lemma StoredChange(e: State, b: State, op: nat, p: Place, z: int)
    requires SameChange(e, e, b, b) && IsPlace(e.mem, p)
    ensures SameChange(e, Stored(e, op, p, z), b, Stored(b, op, p, z))
  {
    hide Assigned;
    PlaceChange(e, e, b, b, p, z);
  }

  // ----- Steps -----

  lemma AluRow(opcode: u8, reg: RegIndex)
    requires opcode < 0x40 && opcode % 8 < 6
    ensures var inst := AluEntry(opcode / 8, opcode % 8);
            InstructionTable(opcode) == inst && PlainOpcode(opcode) && Fixup(inst, reg) == Ok(inst)
  {
  }

  /** ADD, OR, ADC, SBB, AND, SUB, XOR and CMP between a register and a ModR/M operand. */
  lemma StepAlu(s: State, ps: seq<u8>, opcode: u8, rest: seq<u8>, env: Env)
    requires At(s, ps, opcode, rest) && opcode < 0x40 && opcode % 8 < 4 && HasRm(s, ps, rest)
    ensures var size := ActualSize(ByteOrWord(opcode), Wide(s, ps));
            var (rm, reg) := (RmPlace(s, ps, rest, Width(size)), RegPlace(rest, Width(size)));
            var (p, q) := if opcode % 8 < 2 then (rm, reg) else (reg, rm);
            && IsPlace(s.mem, p) && IsPlace(s.mem, q)
            && if !RmDecodes(s, ps, rest) then Step.Step(s, env) == Halted(HostUndefined)
               else
                 && Step.Step(s, env).Ok?
                 && AluEffect(s, Behind(s, |ps| + 1 + RmBytes(s, ps, rest)), Step.Step(s, env).value, opcode / 8, p,
                              Contents(s, q), size)
  {
    hide CodeIs, Step.Step, Execute, InstructionTable, Behind, Finished, Fixup, PlainOpcode, Executing, PlaceOf;
    hide RmDecodes, Contents, RmBytes, RmPlace, TextAddress, AluEffect;
    var inst := AluEntry(opcode / 8, opcode % 8);
    AluRow(opcode, RegOf(rest[0]));
    var size := ActualSize(ByteOrWord(opcode), Wide(s, ps));
    RmIsPlace(s, ps, rest, Width(size));
    var i := StepModrmText(s, ps, opcode, rest, env, inst);
    if RmDecodes(s, ps, rest) {
      var (rm, reg, m) := (RmPlace(s, ps, rest, Width(size)), RegPlace(rest, Width(size)), RmBytes(s, ps, rest));
      var (p, q) := if opcode % 8 < 2 then (rm, reg) else (reg, rm);
      ExecutingKeeps(s, ps, m);
      RunAlu(s, i, env, opcode / 8, p, Held(q));
      EffectLands(s, ps, m, Execute(i, env).value, opcode / 8, p, Contents(s, q), size);
    }
  }

  /** The same between the accumulator and an immediate, 04 and 05 and so on. */
  lemma StepAluAccumulator(s: State, ps: seq<u8>, opcode: u8, rest: seq<u8>, env: Env)
    requires At(s, ps, opcode, rest) && opcode < 0x40 && 4 <= opcode % 8 < 6
    requires OperandBytes(s, ps, ByteOrWord(opcode)) <= |rest|
    ensures var size := ActualSize(ByteOrWord(opcode), Wide(s, ps));
            var n := Width(size);
            && Step.Step(s, env).Ok?
            && AluEffect(s, Behind(s, |ps| + 1 + n), Step.Step(s, env).value, opcode / 8, Register(EAX, n),
                         Number(rest[..n]), size)
  {
    hide CodeIs, Step.Step, Execute, InstructionTable, Behind, Finished, Fixup, PlainOpcode, Executing, PlaceOf;
    hide Contents, AluEffect, Number;
    var inst := AluEntry(opcode / 8, opcode % 8);
    AluRow(opcode, 0);
    var i := StepPlainText(s, ps, opcode, rest, env, inst);
    var size := ActualSize(ByteOrWord(opcode), Wide(s, ps));
    var (n, p) := (Width(size), Register(EAX, Width(size)));
    assert rest[0..0 + n] == rest[..n];
    ExecutingKeeps(s, ps, n);
    RunAlu(s, i, env, opcode / 8, p, Value(Number(rest[..n])));
    EffectLands(s, ps, n, Execute(i, env).value, opcode / 8, p, Number(rest[..n]), size);
  }

  function ImmediateSize(opcode: u8): Size { if opcode == 0x81 then Sz1632 else Sz8 }

  function ImmediateEntry(opcode: u8): Op
  {
    var size := ByteOrWord(opcode);
    Op(OpAlu, ALU_MULTI, USE_MODRM, Rm(size), Rm(size),
       Operand(if opcode == 0x83 then KSimm else KImm, ImmediateSize(opcode), 0))
  }

  lemma AluImmediateRow(opcode: u8, reg: RegIndex)
    requires 0x80 <= opcode <= 0x83
    ensures var inst := ImmediateEntry(opcode);
            InstructionTable(opcode) == inst && PlainOpcode(opcode) && Fixup(inst, reg) == Ok(inst)
  {
  }

  /** And between a ModR/M operand and an immediate, 80 to 83; the byte of 83 is extended with its sign to 32 bits. */
  lemma StepAluImmediate(s: State, ps: seq<u8>, opcode: u8, rest: seq<u8>, env: Env)
    requires At(s, ps, opcode, rest) && 0x80 <= opcode <= 0x83 && HasRm(s, ps, rest)
    requires RmBytes(s, ps, rest) + OperandBytes(s, ps, ImmediateSize(opcode)) <= |rest|
    ensures var size := ActualSize(ByteOrWord(opcode), Wide(s, ps));
            var (m, k) := (RmBytes(s, ps, rest), OperandBytes(s, ps, ImmediateSize(opcode)));
            var (p, bytes) := (RmPlace(s, ps, rest, Width(size)), rest[m..m + k]);
            var y := if opcode == 0x83 then SignedNumber(bytes) % TWO32 else Number(bytes);
            && IsPlace(s.mem, p)
            && if !RmDecodes(s, ps, rest) then Step.Step(s, env) == Halted(HostUndefined)
               else
                 && Step.Step(s, env).Ok?
                 && AluEffect(s, Behind(s, |ps| + 1 + m + k), Step.Step(s, env).value, RegOf(rest[0]), p, y, size)
  {
    hide CodeIs, Step.Step, Execute, InstructionTable, Behind, Finished, Fixup, PlainOpcode, Executing, PlaceOf;
    hide RmDecodes, Contents, RmBytes, RmPlace, TextAddress, AluEffect, Number, SignedNumber;
    var (inst, op) := (ImmediateEntry(opcode), RegOf(rest[0]));
    AluImmediateRow(opcode, op);
    var size := ActualSize(ByteOrWord(opcode), Wide(s, ps));
    RmIsPlace(s, ps, rest, Width(size));
    var i := StepModrmText(s, ps, opcode, rest, env, inst);
    if RmDecodes(s, ps, rest) {
      var (m, k, p) := (RmBytes(s, ps, rest), OperandBytes(s, ps, ImmediateSize(opcode)),
        RmPlace(s, ps, rest, Width(size)));
      var y := if opcode == 0x83 then SignedNumber(rest[m..m + k]) % TWO32 else Number(rest[m..m + k]);
      ExecutingKeeps(s, ps, m + k);
      RunAlu(s, i, env, op, p, Value(y));
      EffectLands(s, ps, m + k, Execute(i, env).value, op, p, y, size);
    }
  }

  // ----- Bits -----

  /** How many bits a place has. */
  function BitsOfPlace(p: Place): nat
  {
    match p
    case LowByte(_) => 8
    case HighByte(_) => 8
    case LowWord(_) => 16
    case Whole(_) => 32
    case Cells(_, n) => 8 * n
  }

  lemma CapacityIs(p: Place)
    requires p.Cells? ==> p.n <= 4
    ensures Capacity(p) == Pow2(BitsOfPlace(p))
  {
    ShortPowers();
    Pow2Of32();
    assert Pow2(8) == TWO8;
    assert Pow2(16) == TWO16 by { assert Pow2(12) == 0x1000; }
    assert Pow2(24) == 0x100_0000 by { assert Pow2(20) == 0x10_0000; }
  }

  /** After OR, AND and XOR each bit of the place is the OR, AND or inequality of the operands' bits. */
  lemma LogicBits(s: State, b: State, t: State, op: nat, p: Place, y: u32, size: Size, k: nat)
    requires Logical(op) && IsPlace(s.mem, p) && s.mem == b.mem && Contents(s, p) < TWO32
    requires AluEffect(s, b, t, op, p, y, size) && k < BitsOfPlace(p) <= 32
    ensures IsPlace(t.mem, p)
    ensures var (x, z) := (Contents(s, p), Contents(t, p));
            BitOf(z, k) <==> if op == ALU_OR then BitOf(x, k) || BitOf(y, k)
                             else if op == ALU_AND then BitOf(x, k) && BitOf(y, k) else BitOf(x, k) != BitOf(y, k)
  {
    hide BitOf, And32, Or32, Xor32, Assigned, Contents, Capacity, Pow2, AluFlags;
    var x := Contents(s, p);
    var v := AluValue(op, x, y, Bit(s.eflags[CARRY]));
    var u := Assigned(b, p, v);
    WrapSmall(x);
    WrapSmall(y);
    AssignedSpan(b, p, v);
    AssignedHolds(b, p, v);
    SamePlaces(u, t, p, 0);
    CapacityIs(p);
    BitsBelow(v, BitsOfPlace(p), k);
    Bitwise(x, y, k);
  }

  lemma AssignedSpan(s: State, p: Place, v: int)
    requires IsPlace(s.mem, p)
    ensures |Assigned(s, p, v).mem| == |s.mem|
  {
  }

  /** After NOT each bit is turned over. */
  lemma NotBits(s: State, p: Place, k: nat)
    requires IsPlace(s.mem, p) && Contents(s, p) < Capacity(p) && k < BitsOfPlace(p)
    ensures IsPlace(s.mem, p) && |Assigned(s, p, -1 - Contents(s, p)).mem| == |s.mem|
    ensures BitOf(Contents(Assigned(s, p, -1 - Contents(s, p)), p), k) <==> !BitOf(Contents(s, p), k)
  {
    hide BitOf, Assigned, Contents, Capacity, Pow2;
    var x: int := Contents(s, p);
    AssignedSpan(s, p, -1 - x);
    AssignedHolds(s, p, -1 - x);
    CapacityIs(p);
    DivModUnique(-1 - x, -1, Capacity(p) - 1 - x, Capacity(p));
    ComplementBits(x, BitsOfPlace(p), k);
  }

  // ----- TEST and NOT -----

  /** TEST only sets the flags that AND would set. */
  ghost predicate TestEffect(s: State, b: State, t: State, x: int, y: int, size: Size)
  {
    t == b.(eflags := t.eflags) && AluFlags(ALU_AND, s.eflags, x, y, size, t.eflags)
  }

  lemma RunTest(s: State, i: Instruction, env: Env, p: Place, x: Source)
    requires i.inst.opType.OpAluSpecial? && i.inst.subType == ALU_TEST && !WritesDx(i.inst.flags) && i.dst.kind.DNone?
    requires i.s.regs == s.regs && i.s.mem == s.mem && i.s.eflags == s.eflags && FlagSize(i.src1.size)
    requires Denotes(s, i.s, i.src1, Held(p)) && Denotes(s, i.s, i.src2, x) && (x.Held? || x.Value?)
    ensures Execute(i, env).Ok?
    ensures TestEffect(s, i.s, Execute(i, env).value, Contents(s, p), Amount(s, x), i.src1.size)
  {
    hide PlaceOf, ReadSource, Amount, Location, Contents, LogicFlags, ResultFlags, And32, OtherFlagsKept;
    ReadsSource(s, i.s, i.src1, Held(p));
    ReadsSource(s, i.s, i.src2, x);
    AmountOfPlace(s, p);
    var z := And32(Contents(s, p), Amount(s, x));
    LogicMeans(s.eflags, z, i.src1.size);
  }

  lemma TestLands(s: State, ps: seq<u8>, n: nat, t: State, x: int, y: int, size: Size)
    requires NothingPending(s) && TestEffect(s, Executing(s, ps, n), t, x, y, size)
    ensures Finished(s, Ok(t)).Ok?
    ensures TestEffect(s, Behind(s, |ps| + 1 + n), Finished(s, Ok(t)).value, x, y, size)
  {
    hide AluFlags, Executing, Behind, Finished;
    ExecutingIs(s, ps, n);
    FlagsLand(s, ps, n, t);
  }

  lemma TestRows(opcode: u8, reg: RegIndex)
    requires opcode in {0x84, 0x85, 0xA8, 0xA9, 0xF6, 0xF7}
    ensures PlainOpcode(opcode)
    ensures opcode == 0x84 || opcode == 0x85 ==> InstructionTable(opcode) == TestEntry(opcode, USE_MODRM)
    ensures opcode == 0xA8 || opcode == 0xA9 ==>
              InstructionTable(opcode) == TestEntry(opcode, 0)
                && Fixup(TestEntry(opcode, 0), 0) == Ok(TestEntry(opcode, 0))
    ensures opcode == 0x84 || opcode == 0x85 ==> Fixup(InstructionTable(opcode), reg) == Ok(InstructionTable(opcode))
    ensures opcode >= 0xF6 ==>
              && UsesModrm(InstructionTable(opcode))
              && Fixup(InstructionTable(opcode), 0) == Ok(TestEntry(opcode, USE_MODRM + WEIRD))
              && Fixup(InstructionTable(opcode), 2) ==
                   Ok(Op(OpAluSpecial, ALU_NOT, USE_MODRM + WEIRD, Rm(ByteOrWord(opcode)), Rm(ByteOrWord(opcode)),
                     NONE))
  {
  }

  /** TEST of a ModR/M operand with a register, of the accumulator with an immediate, and in the group of F6 and F7. */
  function TestEntry(opcode: u8, flags: nat): Op
  {
    var size := ByteOrWord(opcode);
    if opcode < 0x86 then Op(OpAluSpecial, ALU_TEST, flags, NONE, Rm(size), I386.RegField(size))
    else if opcode < 0xF6 then Op(OpAluSpecial, ALU_TEST, flags, NONE, ConstReg(size, EAX), Imm(size))
    else Op(OpAluSpecial, ALU_TEST, flags, NONE, Rm(size), Imm(size))
  }

  /** TEST of a ModR/M operand, 84 and 85 and, with reg field 0, F6 and F7. */
  lemma StepTest(s: State, ps: seq<u8>, opcode: u8, rest: seq<u8>, env: Env)
    requires At(s, ps, opcode, rest) && HasRm(s, ps, rest)
    requires opcode in {0x84, 0x85} || (opcode in {0xF6, 0xF7} && RegOf(rest[0]) == 0)
    requires opcode >= 0xF6 ==> RmBytes(s, ps, rest) + OperandBytes(s, ps, ByteOrWord(opcode)) <= |rest|
    ensures var size := ActualSize(ByteOrWord(opcode), Wide(s, ps));
            var (m, n) := (RmBytes(s, ps, rest), Width(size));
            var (p, k) := (RmPlace(s, ps, rest, n), if opcode >= 0xF6 then n else 0);
            && IsPlace(s.mem, p)
            && if !RmDecodes(s, ps, rest) then Step.Step(s, env) == Halted(HostUndefined)
               else
                 && Step.Step(s, env).Ok?
                 && TestEffect(s, Behind(s, |ps| + 1 + m + k), Step.Step(s, env).value, Contents(s, p),
                               if opcode >= 0xF6 then Number(rest[m..m + n]) else Contents(s, RegPlace(rest, n)), size)
  {
    hide CodeIs, Step.Step, Execute, InstructionTable, Behind, Finished, Fixup, PlainOpcode, Executing, PlaceOf;
    hide RmDecodes, Contents, RmBytes, RmPlace, TextAddress, TestEffect, Number;
    TestRows(opcode, RegOf(rest[0]));
    var inst := Fixup(InstructionTable(opcode), RegOf(rest[0])).value;
    var size := ActualSize(ByteOrWord(opcode), Wide(s, ps));
    RmIsPlace(s, ps, rest, Width(size));
    var i := StepModrmText(s, ps, opcode, rest, env, inst);
    if RmDecodes(s, ps, rest) {
      var (m, n) := (RmBytes(s, ps, rest), Width(size));
      var (p, k) := (RmPlace(s, ps, rest, n), if opcode >= 0xF6 then n else 0);
      var x := if opcode >= 0xF6 then Value(Number(rest[m..m + n])) else Held(RegPlace(rest, n));
      ExecutingKeeps(s, ps, m + k);
      RunTest(s, i, env, p, x);
      TestLands(s, ps, m + k, Execute(i, env).value, Contents(s, p), Amount(s, x), size);
    }
  }

  /** TEST of the accumulator with an immediate, A8 and A9. */
  lemma StepTestAccumulator(s: State, ps: seq<u8>, opcode: u8, rest: seq<u8>, env: Env)
    requires At(s, ps, opcode, rest) && 0xA8 <= opcode <= 0xA9 && OperandBytes(s, ps, ByteOrWord(opcode)) <= |rest|
    ensures var size := ActualSize(ByteOrWord(opcode), Wide(s, ps));
            var n := Width(size);
            && Step.Step(s, env).Ok?
            && TestEffect(s, Behind(s, |ps| + 1 + n), Step.Step(s, env).value, Contents(s, Register(EAX, n)),
                          Number(rest[..n]), size)
  {
    hide CodeIs, Step.Step, Execute, InstructionTable, Behind, Finished, Fixup, PlainOpcode, Executing, PlaceOf;
    hide Contents, TestEffect, Number;
    var inst := TestEntry(opcode, 0);
    TestRows(opcode, 0);
    var i := StepPlainText(s, ps, opcode, rest, env, inst);
    var size := ActualSize(ByteOrWord(opcode), Wide(s, ps));
    var (n, p) := (Width(size), Register(EAX, Width(size)));
    assert rest[0..0 + n] == rest[..n];
    ExecutingKeeps(s, ps, n);
    RunTest(s, i, env, p, Value(Number(rest[..n])));
    TestLands(s, ps, n, Execute(i, env).value, Contents(s, p), Number(rest[..n]), size);
  }

  lemma RunNot(s: State, i: Instruction, env: Env, p: Place)
    requires i.inst.opType.OpAluSpecial? && i.inst.subType == ALU_NOT && !WritesDx(i.inst.flags) && i.src2.kind.DNone?
    requires i.s.regs == s.regs && i.s.mem == s.mem && i.s.eflags == s.eflags
    requires Denotes(s, i.s, i.src1, Held(p)) && Denotes(s, i.s, i.dst, Held(p))
    ensures Execute(i, env) == Ok(Assigned(i.s, p, -1 - Contents(s, p)))
  {
    hide PlaceOf, ReadSource, WriteDest, Location, Contents, Assigned;
    ReadsSource(s, i.s, i.src1, Held(p));
    AmountOfPlace(s, p);
    NothingRead(i.s, i.src2);
    var x: int := Contents(s, p);
    WritesPlace(i.s, i.dst, TWO64 - 1 - x);
    AddMultiple(-1 - x, TWO32, TWO32);
    AssignedWrapped(i.s, p, TWO64 - 1 - x);
    AssignedWrapped(i.s, p, -1 - x);
    assert i.s.(eflags := i.s.eflags) == i.s;
  }

  lemma NothingRead(s: State, d: Decoded)
    requires d.kind.DNone?
    ensures ReadSource(s, d) == Ok(0)
  {
  }

  /** NOT, F6 and F7 with reg field 2: the complement, and no flag changes. */
  lemma StepNot(s: State, ps: seq<u8>, opcode: u8, rest: seq<u8>, env: Env)
    requires At(s, ps, opcode, rest) && 0xF6 <= opcode <= 0xF7 && HasRm(s, ps, rest) && RegOf(rest[0]) == 2
    ensures var p := RmPlace(s, ps, rest, OperandBytes(s, ps, ByteOrWord(opcode)));
            && IsPlace(s.mem, p)
            && Step.Step(s, env) ==
                 if !RmDecodes(s, ps, rest) then Halted(HostUndefined)
                 else Ok(Assigned(Behind(s, |ps| + 1 + RmBytes(s, ps, rest)), p, -1 - Contents(s, p)))
  {
    hide CodeIs, Step.Step, Execute, InstructionTable, Behind, Finished, Fixup, PlainOpcode, Executing, PlaceOf;
    hide RmDecodes, Contents, RmBytes, RmPlace, TextAddress, Assigned;
    TestRows(opcode, 0);
    var inst := Fixup(InstructionTable(opcode), 2).value;
    RmIsPlace(s, ps, rest, OperandBytes(s, ps, ByteOrWord(opcode)));
    var i := StepModrmText(s, ps, opcode, rest, env, inst);
    if RmDecodes(s, ps, rest) {
      var (p, m) := (RmPlace(s, ps, rest, OperandBytes(s, ps, ByteOrWord(opcode))), RmBytes(s, ps, rest));
      ExecutingKeeps(s, ps, m);
      RunNot(s, i, env, p);
      AssignmentLands(s, ps, m, p, -1 - Contents(s, p));
    }
  }

  /** NEG negates; CF is set exactly where the operand is zero, and OF and AF stay. */
  ghost predicate NegEffect(s: State, b: State, t: State, p: Place, size: Size)
    requires IsPlace(s.mem, p) && s.mem == b.mem
  {
    var z: int := -(Contents(s, p) as int);
    && t == Assigned(b, p, z).(eflags := t.eflags) && ResultFlags(z, size, t.eflags)
    && (t.eflags[CARRY] <==> Contents(s, p) == 0)
    && forall k :: 0 <= k < 32 && k !in {CARRY, PARITY, ZERO, SIGN} ==> t.eflags[k] == s.eflags[k]
  }

  lemma NegFlags(e: Bits32, x: int, size: Size)
    requires FlagSize(size)
    ensures var f := SetSZP(e[CARRY := x == 0], -x, size);
            && ResultFlags(-x, size, f) && (f[CARRY] <==> x == 0)
            && forall k :: 0 <= k < 32 && k !in {CARRY, PARITY, ZERO, SIGN} ==> f[k] == e[k]
  {
    hide SignBit, ZeroBits, OddParity, Limit, Ones, BitsOf;
    PlainMeans(-x, size);
  }

  /** The flag formulas look at the low bits alone. */
  lemma PlainMeans(z: int, size: Size)
    requires FlagSize(size)
    ensures ZeroBits(z, size) <==> z % Limit(size) == 0
    ensures SignBit(z, size) <==> z % Limit(size) >= Limit(size) / 2
    ensures OddParity(z) <==> Ones(BitsOf(z % TWO8, 8)) % 2 == 1
  {
    hide SignBit, ZeroBits, Limit, Reduced, Ones, BitsOf;
    ReducedSign(z, size);
    ReducedIs(z, size);
  }

  lemma RunNeg(s: State, i: Instruction, env: Env, p: Place)
    requires i.inst.opType.OpAluSpecial? && i.inst.subType == ALU_NEG && !WritesDx(i.inst.flags) && i.src2.kind.DNone?
    requires i.s.regs == s.regs && i.s.mem == s.mem && i.s.eflags == s.eflags && FlagSize(i.src1.size)
    requires Denotes(s, i.s, i.src1, Held(p)) && Denotes(s, i.s, i.dst, Held(p))
    ensures Execute(i, env).Ok? && NegEffect(s, i.s, Execute(i, env).value, p, i.src1.size)
  {
    hide PlaceOf, ReadSource, WriteDest, Location, Contents, Assigned, SetSZP, ResultFlags, NegEffect, Execute, IsPlace;
    ReadsSource(s, i.s, i.src1, Held(p));
    PlaceIsHeld(s, i.s, i.src1, p);
    PlaceIsHeld(s, i.s, i.dst, p);
    AmountOfPlace(s, p);
    NothingRead(i.s, i.src2);
    var x: int := Contents(s, p);
    var f := SetSZP(s.eflags[CARRY := x == 0], -x, i.src1.size);
    NegFlags(s.eflags, x, i.src1.size);
    SamePlaceOf(i.s, i.s.(eflags := f), i.dst);
    WritesPlace(i.s.(eflags := f), i.dst, -x);
    AssignedFlags(i.s, p, -x, f);
    NegRuns(i, env, x, f);
    NegIs(s, i.s, f, p, i.src1.size);
  }

  lemma NegIs(s: State, b: State, f: Bits32, p: Place, size: Size)
    requires IsPlace(s.mem, p) && s.mem == b.mem && ResultFlags(-(Contents(s, p) as int), size, f)
    requires f[CARRY] <==> Contents(s, p) == 0
    requires forall k :: 0 <= k < 32 && k !in {CARRY, PARITY, ZERO, SIGN} ==> f[k] == s.eflags[k]
    ensures NegEffect(s, b, Assigned(b, p, -(Contents(s, p) as int)).(eflags := f), p, size)
  {
    hide Contents, Assigned, ResultFlags;
  }

  lemma NegRuns(i: Instruction, env: Env, x: u64, f: Bits32)
    requires i.inst.opType.OpAluSpecial? && i.inst.subType == ALU_NEG && !WritesDx(i.inst.flags)
    requires ReadSource(i.s, i.src1) == Ok(x) && ReadSource(i.s, i.src2) == Ok(0) && FlagSize(i.src1.size)
    requires f == SetSZP(i.s.eflags[CARRY := x == 0], -(x as int), i.src1.size)
    ensures Execute(i, env) == WriteDest(i.s.(eflags := f), i.dst, -(x as int))
  {
    hide ReadSource, WriteDest, SetSZP;
  }

  lemma NegLands(s: State, ps: seq<u8>, n: nat, t: State, p: Place, size: Size)
    requires NothingPending(s) && IsPlace(s.mem, p) && NegEffect(s, Executing(s, ps, n), t, p, size)
    ensures Finished(s, Ok(t)).Ok? && NegEffect(s, Behind(s, |ps| + 1 + n), Finished(s, Ok(t)).value, p, size)
  {
    hide Executing, Behind, Finished, Contents, Assigned, ResultFlags, SameChange;
    NoChange(s, ps, n);
    ExecutingIs(s, ps, n);
    var (e, b) := (Executing(s, ps, n), Behind(s, |ps| + 1 + n));
    var z: int := -(Contents(s, p) as int);
    PlaceChange(e, e, b, b, p, z);
    FlagsChanged(e, Assigned(e, p, z), b, Assigned(b, p, z), t.eflags);
    ChangeLands(s, ps, n, t, Assigned(b, p, z).(eflags := t.eflags));
  }

  /** NEG, F6 and F7 with reg field 3. */
  lemma StepNegate(s: State, ps: seq<u8>, opcode: u8, rest: seq<u8>, env: Env)
    requires At(s, ps, opcode, rest) && 0xF6 <= opcode <= 0xF7 && HasRm(s, ps, rest) && RegOf(rest[0]) == 3
    ensures var size := ActualSize(ByteOrWord(opcode), Wide(s, ps));
            var p := RmPlace(s, ps, rest, Width(size));
            && IsPlace(s.mem, p)
            && if !RmDecodes(s, ps, rest) then Step.Step(s, env) == Halted(HostUndefined)
               else
                 && Step.Step(s, env).Ok?
                 && NegEffect(s, Behind(s, |ps| + 1 + RmBytes(s, ps, rest)), Step.Step(s, env).value, p, size)
  {
    hide CodeIs, Step.Step, Execute, InstructionTable, Behind, Finished, Fixup, PlainOpcode, Executing, PlaceOf;
    hide RmDecodes, RmBytes, RmPlace, TextAddress, NegEffect;
    NegRow(opcode);
    var size := ActualSize(ByteOrWord(opcode), Wide(s, ps));
    RmIsPlace(s, ps, rest, Width(size));
    var i := StepModrmText(s, ps, opcode, rest, env, NegEntry(opcode));
    if RmDecodes(s, ps, rest) {
      var (p, m) := (RmPlace(s, ps, rest, Width(size)), RmBytes(s, ps, rest));
      ExecutingKeeps(s, ps, m);
      RunNeg(s, i, env, p);
      NegLands(s, ps, m, Execute(i, env).value, p, size);
    }
  }

  function NegEntry(opcode: u8): Op
  {
    Op(OpAluSpecial, ALU_NEG, USE_MODRM + WEIRD, Rm(ByteOrWord(opcode)), Rm(ByteOrWord(opcode)), NONE)
  }

  lemma NegRow(opcode: u8)
    requires 0xF6 <= opcode <= 0xF7
    ensures PlainOpcode(opcode) && UsesModrm(InstructionTable(opcode))
    ensures Fixup(InstructionTable(opcode), 3) == Ok(NegEntry(opcode))
  {
  }

  // ----- INC and DEC -----

  /** One more or one less; CF stays, and the other flags are those of adding or subtracting one. */
  ghost predicate CountEffect(s: State, b: State, t: State, up: bool, p: Place, size: Size)
    requires IsPlace(s.mem, p) && s.mem == b.mem
  {
    var x: int := Contents(s, p);
    var z := if up then x + 1 else x - 1;
    && t == Assigned(b, p, z).(eflags := t.eflags)
    && ResultFlags(z, size, t.eflags) && ArithmeticFlags(up, x, 1, 0, size, t.eflags)
    && OtherFlagsKept(s.eflags, t.eflags) && t.eflags[CARRY] == s.eflags[CARRY]
  }

  lemma CountFlags(e: Bits32, x: u32, up: bool, size: Size)
    requires FlagSize(size)
    ensures var z := if up then x + 1 else x as int - 1;
            var r := Wrap32(z);
            var o := if up then OverflowAdd(x, 1, r, size) else OverflowSub(x, 1, r, size);
            var f := SetAux(SetSZP(e, r, size), x, 1, r)[OVERFLOW := o];
            && ResultFlags(z, size, f) && OtherFlagsKept(e, f) && ArithmeticFlags(up, x, 1, 0, size, f)
            && f[CARRY] == e[CARRY]
  {
    hide SignBit, ZeroBits, OddParity, OverflowAdd, OverflowSub, InSignedRange, SignedOf, Limit, TestBit, Ones, BitsOf;
    hide Wrap32, OtherFlagsKept;
    var z := if up then x + 1 else x as int - 1;
    ResultMeans(z, size);
    if up { SumMeans(x, 1, 0, size); } else { DifferenceMeans(x, 1, 0, size); }
    var r := Wrap32(z);
    CountKeeps(e, x, r, size, if up then OverflowAdd(x, 1, r, size) else OverflowSub(x, 1, r, size));
  }

  lemma CountKeeps(e: Bits32, x: u32, r: u32, size: Size, o: bool)
    ensures var f := SetAux(SetSZP(e, r, size), x, 1, r)[OVERFLOW := o];
            OtherFlagsKept(e, f) && f[CARRY] == e[CARRY]
  {
    hide SignBit, ZeroBits, OddParity, TestBit;
  }

  lemma RunCount(s: State, i: Instruction, env: Env, up: bool, p: Place)
    requires i.inst.opType.OpIncDec? && i.inst.subType == (if up then ID_INC else ID_DEC)
    requires i.s.regs == s.regs && i.s.mem == s.mem && i.s.eflags == s.eflags && FlagSize(i.src1.size)
    requires Denotes(s, i.s, i.src1, Held(p)) && Denotes(s, i.s, i.dst, Held(p))
    ensures Execute(i, env).Ok? && CountEffect(s, i.s, Execute(i, env).value, up, p, i.src1.size)
  {
    hide PlaceOf, Assigned, ReadSource, WriteDest, Location, Contents, SetAux, SetSZP, OverflowAdd, OverflowSub;
    hide ResultFlags, ArithmeticFlags, OtherFlagsKept, Wrap32, Execute, Amount, IsPlace, CountEffect;
    ReadsSource(s, i.s, i.src1, Held(p));
    PlaceIsHeld(s, i.s, i.src1, p);
    AmountOfPlace(s, p);
    Below(i.s, i.src1);
    SamePlaces(s, i.s, p, 0);
    var (x, size) := (Contents(s, p), i.src1.size);
    CountFlags(s.eflags, x, up, size);
    var z := if up then x + 1 else x as int - 1;
    var r := Wrap32(z);
    var o := if up then OverflowAdd(x, 1, r, size) else OverflowSub(x, 1, r, size);
    var f := SetAux(SetSZP(s.eflags, r, size), x, 1, r)[OVERFLOW := o];
    var u := i.s.(eflags := f);
    SamePlaceOf(i.s, u, i.dst);
    WritesPlace(u, i.dst, r);
    AssignedWrapped(u, p, z);
    AssignedFlags(i.s, p, z, f);
    CountRuns(i, env, x, r, f);
    CountIs(s, i.s, f, up, p, x, z, size);
  }

  lemma CountIs(s: State, b: State, f: Bits32, up: bool, p: Place, x: int, z: int, size: Size)
    requires IsPlace(s.mem, p) && s.mem == b.mem && x == Contents(s, p) && z == if up then x + 1 else x - 1
    requires ResultFlags(z, size, f) && ArithmeticFlags(up, x, 1, 0, size, f) && OtherFlagsKept(s.eflags, f)
    requires f[CARRY] == s.eflags[CARRY]
    ensures CountEffect(s, b, Assigned(b, p, z).(eflags := f), up, p, size)
  {
    hide Contents, Assigned, ResultFlags, ArithmeticFlags, OtherFlagsKept;
  }

  lemma PlaceIsHeld(s: State, e: State, d: Decoded, p: Place)
    requires Denotes(s, e, d, Held(p)) && e.mem == s.mem
    ensures Location(d) && PlaceOf(e, d) == p && IsPlace(s.mem, p)
  {
  }

  lemma CountRuns(i: Instruction, env: Env, x: u32, r: u32, f: Bits32)
    requires i.inst.opType.OpIncDec? && FlagSize(i.src1.size) && ReadSource(i.s, i.src1) == Ok(x)
    requires var up := i.inst.subType == ID_INC;
             && r == Wrap32(if up then x + 1 else x as int - 1)
             && f == SetAux(SetSZP(i.s.eflags, r, i.src1.size), x, 1, r)
                       [OVERFLOW := if up then OverflowAdd(x, 1, r, i.src1.size) else OverflowSub(x, 1, r, i.src1.size)]
    ensures Execute(i, env) == WriteDest(i.s.(eflags := f), i.dst, r)
  {
    hide ReadSource, WriteDest, SetAux, SetSZP, OverflowAdd, OverflowSub;
    WrapSmall(x);
  }

  lemma CountLands(s: State, ps: seq<u8>, n: nat, t: State, up: bool, p: Place, size: Size)
    requires NothingPending(s) && IsPlace(s.mem, p) && CountEffect(s, Executing(s, ps, n), t, up, p, size)
    ensures Finished(s, Ok(t)).Ok? && CountEffect(s, Behind(s, |ps| + 1 + n), Finished(s, Ok(t)).value, up, p, size)
  {
    hide Executing, Behind, Finished, Contents, Assigned, ResultFlags, ArithmeticFlags, OtherFlagsKept, SameChange;
    NoChange(s, ps, n);
    ExecutingIs(s, ps, n);
    var (e, b) := (Executing(s, ps, n), Behind(s, |ps| + 1 + n));
    var x: int := Contents(s, p);
    var z := if up then x + 1 else x - 1;
    PlaceChange(e, e, b, b, p, z);
    FlagsChanged(e, Assigned(e, p, z), b, Assigned(b, p, z), t.eflags);
    ChangeLands(s, ps, n, t, Assigned(b, p, z).(eflags := t.eflags));
  }

  /** INC and DEC of a register, 40 to 4F. */
  lemma StepCountRegister(s: State, ps: seq<u8>, opcode: u8, rest: seq<u8>, env: Env)
    requires At(s, ps, opcode, rest) && 0x40 <= opcode <= 0x4F
    ensures var size := ActualSize(Sz1632, Wide(s, ps));
            && Step.Step(s, env).Ok?
            && CountEffect(s, Behind(s, |ps| + 1), Step.Step(s, env).value, opcode < 0x48,
                           Register(opcode % 8, Width(size)), size)
  {
    hide CodeIs, Step.Step, Execute, InstructionTable, Behind, Finished, Fixup, PlainOpcode, Executing, PlaceOf;
    hide CountEffect;
    var op := ConstReg(Sz1632, opcode % 8);
    var inst := Op(OpIncDec, if opcode < 0x48 then ID_INC else ID_DEC, 0, op, op, NONE);
    CountRow(opcode);
    var i := StepPlainText(s, ps, opcode, rest, env, inst);
    var size := ActualSize(Sz1632, Wide(s, ps));
    var p := Register(opcode % 8, Width(size));
    ExecutingKeeps(s, ps, 0);
    RunCount(s, i, env, opcode < 0x48, p);
    CountLands(s, ps, 0, Execute(i, env).value, opcode < 0x48, p, size);
  }

  lemma CountRow(opcode: u8)
    requires 0x40 <= opcode <= 0x4F
    ensures var op := ConstReg(Sz1632, opcode % 8);
            var inst := Op(OpIncDec, if opcode < 0x48 then ID_INC else ID_DEC, 0, op, op, NONE);
            InstructionTable(opcode) == inst && PlainOpcode(opcode) && Fixup(inst, 0) == Ok(inst)
  {
  }

  /** INC and DEC of a ModR/M operand, FE and FF with reg fields 0 and 1. */
  lemma StepCountRm(s: State, ps: seq<u8>, opcode: u8, rest: seq<u8>, env: Env)
    requires At(s, ps, opcode, rest) && 0xFE <= opcode <= 0xFF && HasRm(s, ps, rest) && RegOf(rest[0]) <= 1
    ensures var size := ActualSize(ByteOrWord(opcode), Wide(s, ps));
            var p := RmPlace(s, ps, rest, Width(size));
            && IsPlace(s.mem, p)
            && if !RmDecodes(s, ps, rest) then Step.Step(s, env) == Halted(HostUndefined)
               else
                 && Step.Step(s, env).Ok?
                 && CountEffect(s, Behind(s, |ps| + 1 + RmBytes(s, ps, rest)), Step.Step(s, env).value,
                                RegOf(rest[0]) == 0, p, size)
  {
    hide CodeIs, Step.Step, Execute, InstructionTable, Behind, Finished, Fixup, PlainOpcode, Executing, PlaceOf;
    hide RmDecodes, RmBytes, RmPlace, TextAddress, CountEffect;
    GroupRows(opcode);
    var up := RegOf(rest[0]) == 0;
    var inst := CountGroup(opcode, OpIncDec, if up then ID_INC else ID_DEC);
    var size := ActualSize(ByteOrWord(opcode), Wide(s, ps));
    RmIsPlace(s, ps, rest, Width(size));
    var i := StepModrmText(s, ps, opcode, rest, env, inst);
    if RmDecodes(s, ps, rest) {
      var (p, m) := (RmPlace(s, ps, rest, Width(size)), RmBytes(s, ps, rest));
      ExecutingKeeps(s, ps, m);
      RunCount(s, i, env, up, p);
      CountLands(s, ps, m, Execute(i, env).value, up, p, size);
    }
  }

  // ----- SHL and SHR -----

  /** What a shift by `n` comes to: the operand times or divided by 2^n; the carry of a byte shifted left is the bit
      above the byte, and no other flag changes. Other reg fields spin, and a count of 32 or more is undefined. */
  ghost function Shifted(s: State, b: State, reg: nat, p: Place, n: nat, size: Size): Result<State>
    requires IsPlace(s.mem, p) && s.mem == b.mem
  {
    var x := Contents(s, p);
    if reg != SHL && reg != SHR then Halted(Spin)
    else if n >= 32 then Halted(HostUndefined)
    else if reg == SHR then Ok(Assigned(b, p, x / Pow2(n)))
    else
      var e := if size == Sz8 then s.eflags[CARRY := x * Pow2(n) / TWO8 % 2 == 1] else s.eflags;
      Ok(Assigned(b, p, x * Pow2(n)).(eflags := e))
  }

  lemma ShiftRuns(i: Instruction, env: Env, x: u32, n: nat)
    requires i.inst.opType.OpShift? && i.dst.size == i.src1.size && n < TWO8
    requires ReadSource(i.s, i.src1) == Ok(x) && ReadSource(i.s, i.src2) == Ok(n)
    ensures var e := if i.reg == SHL && i.dst.size == Sz8 then i.s.eflags[CARRY := x * Pow2(n) / TWO8 % 2 == 1]
                     else i.s.eflags;
            Execute(i, env) ==
              if i.reg != SHL && i.reg != SHR then Halted(Spin)
              else if n >= 32 then Halted(HostUndefined)
              else WriteDest(i.s.(eflags := e), i.dst, if i.reg == SHL then Wrap32(x * Pow2(n)) else x / Pow2(n))
  {
    hide ReadSource, WriteDest, ShiftLeft, ShiftRight, Pow2, TestBit, Wrap32;
    WrapSmall(x);
    ShiftLaws.ShiftLeftIs(x, n);
    ShiftLaws.ShiftRightIs(x, n);
    ShiftLaws.BitAbove(x * Pow2(n));
  }

  lemma RunShift(s: State, i: Instruction, env: Env, p: Place, n: Source)
    requires i.inst.opType.OpShift? && i.s.regs == s.regs && i.s.mem == s.mem && i.s.eflags == s.eflags
    requires Denotes(s, i.s, i.src1, Held(p)) && Denotes(s, i.s, i.dst, Held(p)) && i.dst.size == i.src1.size
    requires Denotes(s, i.s, i.src2, n) && (n.Held? || n.Value?) && 0 <= Amount(s, n) < TWO8
    ensures Execute(i, env) == Shifted(s, i.s, i.reg, p, Amount(s, n), i.dst.size)
  {
    hide PlaceOf, Assigned, ReadSource, WriteDest, Location, Contents, Amount, Pow2, Execute, Wrap32, IsPlace;
    ReadsSource(s, i.s, i.src1, Held(p));
    ReadsSource(s, i.s, i.src2, n);
    PlaceIsHeld(s, i.s, i.src1, p);
    PlaceIsHeld(s, i.s, i.dst, p);
    AmountOfPlace(s, p);
    Below(i.s, i.src1);
    SamePlaces(s, i.s, p, 0);
    var (x, k) := (Contents(s, p), Amount(s, n));
    ShiftRuns(i, env, x, k);
    var e := if i.reg == SHL && i.dst.size == Sz8 then s.eflags[CARRY := x * Pow2(k) / TWO8 % 2 == 1] else s.eflags;
    var z := if i.reg == SHL then x * Pow2(k) else x / Pow2(k);
    SamePlaceOf(i.s, i.s.(eflags := e), i.dst);
    WritesPlace(i.s.(eflags := e), i.dst, if i.reg == SHL then Wrap32(z) else z);
    AssignedWrapped(i.s.(eflags := e), p, z);
    AssignedFlags(i.s, p, z, e);
    assert i.s.(eflags := i.s.eflags) == i.s;
    FlagsStay(i.s, p, z);
  }

  lemma FlagsStay(s: State, p: Place, v: int)
    requires IsPlace(s.mem, p)
    ensures Assigned(s, p, v).(eflags := s.eflags) == Assigned(s, p, v)
  {
    hide Digits;
  }

  lemma ShiftedLands(s: State, ps: seq<u8>, m: nat, reg: nat, p: Place, n: nat, size: Size)
    requires NothingPending(s) && IsPlace(s.mem, p)
    ensures Finished(s, Shifted(s, Executing(s, ps, m), reg, p, n, size)) ==
            Shifted(s, Behind(s, |ps| + 1 + m), reg, p, n, size)
  {
    hide Executing, Behind, Finished, Contents, Assigned, Pow2, SameChange;
    NoChange(s, ps, m);
    ExecutingIs(s, ps, m);
    HaltsStay(s);
    var (e, b) := (Executing(s, ps, m), Behind(s, |ps| + 1 + m));
    var (r, u) := (Shifted(s, e, reg, p, n, size), Shifted(s, b, reg, p, n, size));
    if r.Ok? {
      var z := if reg == SHR then Contents(s, p) / Pow2(n) else Contents(s, p) * Pow2(n);
      PlaceChange(e, e, b, b, p, z);
      FlagsChanged(e, Assigned(e, p, z), b, Assigned(b, p, z), r.value.eflags);
      ChangeLands(s, ps, m, r.value, u.value);
    }
  }

  function ShiftEntry(opcode: u8): Op
  {
    var size := if opcode < 0xD2 then ByteOrWord(opcode) else Sz1632;
    Op(OpShift, 0, USE_MODRM, Rm(size), Rm(size),
       if opcode < 0xD0 then Imm(Sz8) else if opcode < 0xD2 then Constant(Sz8, 1) else ConstReg(Sz8, ECX))
  }

  lemma ShiftRow(opcode: u8, reg: RegIndex)
    requires 0xC0 <= opcode <= 0xC1 || 0xD0 <= opcode <= 0xD3
    ensures var inst := ShiftEntry(opcode);
            InstructionTable(opcode) == inst && PlainOpcode(opcode) && Fixup(inst, reg) == Ok(inst)
  {
  }

  /** Shifts by an immediate, by one and by CL; D2, by CL, works on a word or double word like D3. */
  lemma StepShift(s: State, ps: seq<u8>, opcode: u8, rest: seq<u8>, env: Env)
    requires At(s, ps, opcode, rest) && (0xC0 <= opcode <= 0xC1 || 0xD0 <= opcode <= 0xD3) && HasRm(s, ps, rest)
    requires opcode < 0xD0 ==> RmBytes(s, ps, rest) < |rest|
    ensures var size := ActualSize(if opcode < 0xD2 then ByteOrWord(opcode) else Sz1632, Wide(s, ps));
            var (m, p) := (RmBytes(s, ps, rest), RmPlace(s, ps, rest, Width(size)));
            var n := if opcode < 0xD0 then rest[m] else if opcode < 0xD2 then 1 else Contents(s, LowByte(ECX));
            && IsPlace(s.mem, p)
            && Step.Step(s, env) ==
                 if !RmDecodes(s, ps, rest) then Halted(HostUndefined)
                 else Shifted(s, Behind(s, |ps| + 1 + m + if opcode < 0xD0 then 1 else 0), RegOf(rest[0]), p, n, size)
  {
    hide CodeIs, Step.Step, Execute, InstructionTable, Behind, Finished, Fixup, PlainOpcode, Executing, PlaceOf;
    hide RmDecodes, RmBytes, RmPlace, TextAddress, Shifted;
    ShiftRow(opcode, RegOf(rest[0]));
    var size := ActualSize(if opcode < 0xD2 then ByteOrWord(opcode) else Sz1632, Wide(s, ps));
    RmIsPlace(s, ps, rest, Width(size));
    var i := StepModrmText(s, ps, opcode, rest, env, ShiftEntry(opcode));
    if RmDecodes(s, ps, rest) {
      var (m, p) := (RmBytes(s, ps, rest), RmPlace(s, ps, rest, Width(size)));
      var k := if opcode < 0xD0 then 1 else 0;
      if opcode < 0xD0 {
        assert rest[m..m + 1] == [rest[m]] == [rest[m]][..1];
        NumberOfOne([rest[m]]);
      }
      var n := if opcode < 0xD0 then Value(rest[m]) else if opcode < 0xD2 then Value(1) else Held(LowByte(ECX));
      ExecutingKeeps(s, ps, m + k);
      RunShift(s, i, env, p, n);
      ShiftedLands(s, ps, m + k, RegOf(rest[0]), p, Amount(s, n), size);
    }
  }

  /** D2 should shift the byte alone. A shift of the whole place does that exactly when the bytes above come to what
      they are. */
  lemma WholeForByte(s: State, r: RegIndex, wide: bool, v: nat)
    ensures var (p, x) := (Register(r, if wide then 4 else 2), s.regs[r]);
            Assigned(s, p, v) == Assigned(s, LowByte(r), v) <==> v % Capacity(p) / TWO8 == x % Capacity(p) / TWO8
  {
    var (x, m) := (s.regs[r], if wide then TWO32 else TWO16);
    var (a, b) := (x / m * m + v % m, x / TWO8 * TWO8 + v % TWO8);
    WrapSmall(x);
    assert Assigned(s, Register(r, if wide then 4 else 2), v) == s.(regs := s.regs[r := a]);
    assert Assigned(s, LowByte(r), v) == s.(regs := s.regs[r := b]);
    assert s.(regs := s.regs[r := a]).regs[r] == a && s.(regs := s.regs[r := b]).regs[r] == b;
    hide Assigned;
    LowDigits(x, m, v);
  }

  lemma LowDigits(x: nat, m: nat, v: nat)
    requires m == TWO16 || m == TWO32
    ensures x / m * m + v % m == x / TWO8 * TWO8 + v % TWO8 <==> v % m / TWO8 == x % m / TWO8
  {
    AddMultiple(v % m, v / m * (m / TWO8), TWO8);
    AddMultiple(x % m, x / m * (m / TWO8), TWO8);
    assert x == x / m * m + x % m && v == v / m * m + v % m;
  }
}
