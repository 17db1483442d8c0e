/** Whole instructions that load segment registers or use the stack, behind any prefixes. */
module StackSteps {
  import opened Words
  import opened I386
  import opened Machine
  import opened Step
  import opened RunInvariants
  import opened Disassembler
  import opened Instructions
  import opened FlagLaws
  import opened Places
  import opened Texts
  import opened MoveSteps

  // ----- The stack, by its places -----

  /** The bytes of a stack slot: two, or four with a 32-bit stack segment. */
  function SlotBytes(s: State): nat { if s.segs[SS].use32 then 4 else 2 }

  function Slot(s: State, esp: int): Place { Cell(s, SS, esp, SlotBytes(s)) }

  /** ESP goes down by a slot, all 32 bits of it, and the value's low bytes are at SS:ESP. */
  function Pushed(s: State, v: int): (t: State)
    ensures |t.mem| == |s.mem| && t.segs == s.segs
  {
    var esp := (s.regs[ESP] - SlotBytes(s)) % TWO32;
    Assigned(Assigned(s, Whole(ESP), esp), Slot(s, esp), v)
  }

  /** The value at SS:ESP, and the state with ESP above it. */
  function OnTop(s: State): u32
  {
    SlotBelow(s);
    Contents(s, Slot(s, s.regs[ESP]))
  }

  lemma SlotBelow(s: State)
    ensures Contents(s, Slot(s, s.regs[ESP])) < TWO32
  {
    Below(s, SlotOperand(s, s.regs[ESP]));
    hide Contents;
    SlotPlace(s, s.regs[ESP]);
  }

  function Popped(s: State): State { Assigned(s, Whole(ESP), s.regs[ESP] + SlotBytes(s)) }

  function SlotOperand(s: State, esp: u32): Decoded { Decoded(DMem, esp, if s.segs[SS].use32 then Sz32 else Sz16, SS) }

  lemma PushIs(s: State, v: int)
    ensures Push(s, v) == Pushed(s, v)
  {
    hide Linear, Write16, Write32, Assigned, PlaceOf, Read16, Read32;
    var esp := (s.regs[ESP] - SlotBytes(s)) % TWO32;
    var u := s.(regs := s.regs[ESP := esp]);
    WritesPlace(u, SlotOperand(u, esp), v);
    SlotPlace(u, esp);
    EspAssigned(s, s.regs[ESP] - SlotBytes(s));
    SamePush(s, u, esp, v);
  }

  lemma SlotPlace(s: State, esp: u32)
    ensures PlaceOf(s, SlotOperand(s, esp)) == Slot(s, esp)
  {
  }

  lemma EspAssigned(s: State, v: int)
    ensures Assigned(s, Whole(ESP), v % TWO32) == s.(regs := s.regs[ESP := v % TWO32])
    ensures SetReg32(s, ESP, v) == Assigned(s, Whole(ESP), v)
  {
    WrapSmall(v % TWO32);
  }

  lemma SamePush(s: State, u: State, esp: u32, v: int)
    requires esp == Wrap32(s.regs[ESP] - StackWidth(s)) && u == s.(regs := s.regs[ESP := esp])
    ensures WriteDest(u, SlotOperand(u, esp), v) == Ok(Push(s, v))
  {
    hide Write16, Write32, Wrap32;
  }

  lemma PopIs(s: State)
    ensures Top(s) == OnTop(s) && Drop(s) == Popped(s)
  {
    hide Linear, Assigned, PlaceOf, Read16, Read32, SetReg32;
    ReadsPlace(s, SlotOperand(s, s.regs[ESP]));
    SlotPlace(s, s.regs[ESP]);
    EspAssigned(s, s.regs[ESP] + SlotBytes(s));
  }

  /** A segment register takes the selector and, outside protected mode, a base of 16 times it. */
  function Selected(s: State, r: SegIndex, v: u16): State
  {
    s.(segs := s.segs[r := s.segs[r].(selector := v, base := 16 * v)])
  }

  function Loading(s: State, r: nat, v: u16): Result<State>
  {
    if s.cr[0] % 2 == 1 then Halted(Spin) else if r < 6 then Ok(Selected(s, r, v)) else Halted(HostUndefined)
  }

  lemma LoadIs(s: State, d: Decoded, v: u16)
    requires d.kind.DSegReg?
    ensures LoadSegReg(s, d, v) == Loading(s, d.id, v)
  {
    if d.id < 6 {
      var loaded := s.segs[d.id].(selector := v, base := 16 * v);
      assert s.segs[d.id := s.segs[d.id].(selector := v)][d.id := loaded] == s.segs[d.id := loaded];
    }
  }

  // ----- Landing -----

  /** What the state behind the instruction becomes, if the executing state becomes `t`. */
  ghost predicate SameChange(e: State, t: State, b: State, u: State)
  {
    && t == e.(regs := t.regs, mem := t.mem, eflags := t.eflags, segs := t.segs, eip := t.eip)
    && u == b.(regs := t.regs, mem := t.mem, eflags := t.eflags, segs := t.segs, eip := t.eip)
  }

  lemma ChangeLands(s: State, ps: seq<u8>, n: nat, t: State, u: State)
    requires NothingPending(s) && SameChange(Executing(s, ps, n), t, Behind(s, |ps| + 1 + n), u)
    ensures Finished(s, Ok(t)) == Ok(u)
  {
    hide Wrap32, OverridesSegment, LastSegment, Counted;
    Lands(s, ps, n, t);
  }

  lemma ExecutingIs(s: State, ps: seq<u8>, n: nat)
    requires NothingPending(s)
    ensures var (e, b) := (Executing(s, ps, n), Behind(s, |ps| + 1 + n));
            && e.regs == b.regs == s.regs && e.mem == b.mem == s.mem && e.segs == b.segs == s.segs
            && e.eflags == b.eflags == s.eflags && e.eip == b.eip && e.cr == b.cr == s.cr && e.oldEip == b.oldEip
  {
    hide Wrap32, OverridesSegment, LastSegment, Counted;
    WrapTwice(s.eip + |ps| + 1, n);
    assert s.eip + |ps| + 1 + n == s.eip + (|ps| + 1 + n);
  }

  lemma NoChange(s: State, ps: seq<u8>, n: nat)
    requires NothingPending(s)
    ensures var (e, b) := (Executing(s, ps, n), Behind(s, |ps| + 1 + n));
            SameChange(e, e, b, b) && e.segs == b.segs == s.segs && e.cr == b.cr == s.cr
  {
    hide Executing, Behind;
    ExecutingIs(s, ps, n);
  }

  // ----- Segment loads -----

  lemma LoadingLands(s: State, ps: seq<u8>, n: nat, e: State, b: State, r: nat, v: u16)
    requires NothingPending(s) && SameChange(Executing(s, ps, n), e, Behind(s, |ps| + 1 + n), b)
    requires e.segs == s.segs && e.cr == s.cr && b.cr == s.cr
    ensures Finished(s, Loading(e, r, v)) == Loading(b, r, v)
  {
    hide Executing, Behind, Wrap32, Finished;
    if s.cr[0] % 2 == 0 && r < 6 { ChangeLands(s, ps, n, Selected(e, r, v), Selected(b, r, v)); }
    HaltsStay(s);
  }

  lemma HaltsStay(s: State)
    ensures forall why :: Finished(s, Halted(why)) == Halted(why)
  {
  }

  const LOAD_SEGMENT := Op(OpMovToSr, 0, USE_MODRM, Operand(KSegRegModrm, Sz16, 0), Rm(Sz16), NONE)

  lemma LoadRow(reg: RegIndex)
    ensures InstructionTable(0x8E) == LOAD_SEGMENT && PlainOpcode(0x8E) && Fixup(LOAD_SEGMENT, reg) == Ok(LOAD_SEGMENT)
  {
  }

  /** MOV to a segment register, 8E: the register in the reg field takes the word as selector and 16 times the word as
      base, and nothing else changes; in protected mode it spins, and there are no registers 6 and 7. */
  lemma StepLoadSegment(s: State, ps: seq<u8>, rest: seq<u8>, env: Env)
    requires At(s, ps, 0x8E, rest) && HasRm(s, ps, rest)
    ensures Step.Step(s, env) ==
            if !RmDecodes(s, ps, rest) then Halted(HostUndefined)
            else Loading(Behind(s, |ps| + 1 + RmBytes(s, ps, rest)), RegOf(rest[0]),
                         Wrap16(Contents(s, RmPlace(s, ps, rest, 2))))
  {
    hide CodeIs, Step.Step, Execute, InstructionTable, Behind, Finished, Fixup, PlainOpcode, Executing, PlaceOf;
    hide RmDecodes, Contents, RmBytes, RmPlace, TextAddress, LoadSegReg;
    LoadRow(RegOf(rest[0]));
    var i := StepModrmText(s, ps, 0x8E, rest, env, LOAD_SEGMENT);
    if RmDecodes(s, ps, rest) {
      var (rm, n) := (RmPlace(s, ps, rest, 2), RmBytes(s, ps, rest));
      ExecutingKeeps(s, ps, n);
      ReadsSource(s, i.s, i.src1, Held(rm));
      RunLoad(i, env, Contents(s, rm));
      LoadIs(i.s, i.dst, Wrap16(Contents(s, rm)));
      NoChange(s, ps, n);
      LoadingLands(s, ps, n, i.s, Behind(s, |ps| + 1 + n), RegOf(rest[0]), Wrap16(Contents(s, rm)));
    }
  }

  lemma RunLoad(i: Instruction, env: Env, v: u32)
    requires i.inst == LOAD_SEGMENT && ReadSource(i.s, i.src1) == Ok(v)
    ensures Execute(i, env) == LoadSegReg(i.s, i.dst, Wrap16(v))
  {
    hide LoadSegReg, ReadSource;
  }

  /** POP of a segment register, 07, 17 and 1F: the word at SS:ESP is loaded, and ESP moves by a slot. */
  lemma StepPopSegment(s: State, ps: seq<u8>, opcode: u8, rest: seq<u8>, env: Env)
    requires At(s, ps, opcode, rest) && (opcode == 0x07 || opcode == 0x17 || opcode == 0x1F)
    ensures Step.Step(s, env) == Loading(Popped(Behind(s, |ps| + 1)), opcode / 8, Wrap16(OnTop(s)))
  {
    hide CodeIs, Step.Step, Execute, InstructionTable, Behind, Finished, Fixup, PlainOpcode, Executing, PlaceOf;
    hide LoadSegReg, OnTop, Popped, Top, Drop;
    var inst := Op(OpPopSr, 0, 0, ConstSeg(opcode / 8), NONE, NONE);
    PopSegmentRow(opcode);
    var i := StepPlainText(s, ps, opcode, rest, env, inst);
    RunPopSegment(i, env);
    PopIs(i.s);
    LoadIs(Popped(i.s), i.dst, Wrap16(OnTop(i.s)));
    PoppedChange(s, ps, 0);
    LoadingLands(s, ps, 0, Popped(i.s), Popped(Behind(s, |ps| + 1)), opcode / 8, Wrap16(OnTop(s)));
  }

  lemma PopSegmentRow(opcode: u8)
    requires opcode == 0x07 || opcode == 0x17 || opcode == 0x1F
    ensures var inst := Op(OpPopSr, 0, 0, ConstSeg(opcode / 8), NONE, NONE);
            InstructionTable(opcode) == inst && PlainOpcode(opcode) && Fixup(inst, 0) == Ok(inst)
  {
  }

  lemma RunPopSegment(i: Instruction, env: Env)
    requires i.inst.opType.OpPopSr?
    ensures Execute(i, env) == LoadSegReg(Drop(i.s), i.dst, Wrap16(Top(i.s)))
  {
    hide LoadSegReg, Drop, Top;
  }

  lemma PoppedChange(s: State, ps: seq<u8>, n: nat)
    requires NothingPending(s)
    ensures var (e, b) := (Executing(s, ps, n), Behind(s, |ps| + 1 + n));
            && SameChange(e, Popped(e), b, Popped(b)) && OnTop(e) == OnTop(b) == OnTop(s)
            && Popped(e).segs == s.segs && Popped(e).cr == Popped(b).cr == s.cr
  {
    hide Executing, Behind, Number;
    ExecutingIs(s, ps, n);
  }

  // ----- PUSH -----

  lemma RunPush(i: Instruction, env: Env, v: int)
    requires i.inst.opType.OpPush? && ReadSource(i.s, i.src1).Ok? && Wrap32(ReadSource(i.s, i.src1).value) == v
    ensures Execute(i, env) == Ok(Pushed(i.s, v))
  {
    hide ReadSource, Push, Pushed;
    PushIs(i.s, v);
  }

  lemma PushLands(s: State, ps: seq<u8>, n: nat, v: int)
    requires NothingPending(s)
    ensures Finished(s, Ok(Pushed(Executing(s, ps, n), v))) == Ok(Pushed(Behind(s, |ps| + 1 + n), v))
  {
    hide Assigned, Executing, Behind, Finished;
    ExecutingIs(s, ps, n);
    var esp := (s.regs[ESP] - SlotBytes(s)) % TWO32;
    TwoLand(s, ps, n, Whole(ESP), esp, Slot(s, esp), v);
    EspSpan(s, ps, n, esp);
  }

  /** The slot's place is that of the state at the start. */
  lemma EspSpan(s: State, ps: seq<u8>, n: nat, esp: u32)
    requires NothingPending(s)
    ensures var (e, b) := (Executing(s, ps, n), Behind(s, |ps| + 1 + n));
            Slot(Assigned(e, Whole(ESP), esp), esp) == Slot(Assigned(b, Whole(ESP), esp), esp) == Slot(s, esp)
    ensures Slot(Executing(s, ps, n), esp) == Slot(Behind(s, |ps| + 1 + n), esp) == Slot(s, esp)
  {
    hide Executing, Behind;
    ExecutingIs(s, ps, n);
  }

  /** PUSH of a register, 50 to 57. */
  lemma StepPushRegister(s: State, ps: seq<u8>, opcode: u8, rest: seq<u8>, env: Env)
    requires At(s, ps, opcode, rest) && 0x50 <= opcode <= 0x57
    ensures Step.Step(s, env) ==
            Ok(Pushed(Behind(s, |ps| + 1), Contents(s, Register(opcode % 8, OperandBytes(s, ps, Sz1632)))))
  {
    hide CodeIs, Step.Step, Execute, InstructionTable, Behind, Finished, Fixup, PlainOpcode, Executing, PlaceOf;
    hide Pushed, Contents;
    var inst := Op(OpPush, 0, 0, NONE, ConstReg(Sz1632, opcode % 8), NONE);
    PushRow(opcode);
    var i := StepPlainText(s, ps, opcode, rest, env, inst);
    var p := Register(opcode % 8, OperandBytes(s, ps, Sz1632));
    ExecutingKeeps(s, ps, 0);
    ReadsSource(s, i.s, i.src1, Held(p));
    RunPush(i, env, Contents(s, p));
    PushLands(s, ps, 0, Contents(s, p));
  }

  lemma PushRow(opcode: u8)
    requires 0x50 <= opcode <= 0x57
    ensures var inst := Op(OpPush, 0, 0, NONE, ConstReg(Sz1632, opcode % 8), NONE);
            InstructionTable(opcode) == inst && PlainOpcode(opcode) && Fixup(inst, 0) == Ok(inst)
  {
  }

  /** PUSH of an immediate, 68 and 6A. The byte is pushed without its sign. */
  lemma StepPushImmediate(s: State, ps: seq<u8>, opcode: u8, rest: seq<u8>, env: Env)
    requires At(s, ps, opcode, rest) && (opcode == 0x68 || opcode == 0x6A)
    requires OperandBytes(s, ps, if opcode == 0x68 then Sz1632 else Sz8) <= |rest|
    ensures var n := OperandBytes(s, ps, if opcode == 0x68 then Sz1632 else Sz8);
            Step.Step(s, env) == Ok(Pushed(Behind(s, |ps| + 1 + n), Number(rest[..n])))
  {
    hide CodeIs, Step.Step, Execute, InstructionTable, Behind, Finished, Fixup, PlainOpcode, Executing, PlaceOf;
    hide Pushed, Number;
    var size := if opcode == 0x68 then Sz1632 else Sz8;
    var inst := Op(OpPush, 0, 0, NONE, Imm(size), NONE);
    PushImmediateRow(opcode);
    var i := StepPlainText(s, ps, opcode, rest, env, inst);
    var n := OperandBytes(s, ps, size);
    assert rest[0..0 + n] == rest[..n];
    ExecutingKeeps(s, ps, n);
    ReadsSource(s, i.s, i.src1, Value(Number(rest[..n])));
    RunPush(i, env, Number(rest[..n]));
    PushLands(s, ps, n, Number(rest[..n]));
  }

  /** The byte pushed by 6A is the sign-extended one, as a slot, exactly when it is below 80h. */
  lemma PushedByte(b: u8, w: nat)
    requires w == 2 || w == 4
    ensures b % Bytes(w) == Signed8(b) % Bytes(w) <==> b < 0x80
  {
    ShortPowers();
    hide Bytes;
    DivModUnique(b, 0, b, TWO16);
    DivModUnique(b, 0, b, TWO32);
    if b >= 0x80 {
      DivModUnique(b - TWO8, -1, b - TWO8 + TWO16, TWO16);
      DivModUnique(b - TWO8, -1, b - TWO8 + TWO32, TWO32);
    }
  }

  lemma PushImmediateRow(opcode: u8)
    requires opcode == 0x68 || opcode == 0x6A
    ensures var inst := Op(OpPush, 0, 0, NONE, Imm(if opcode == 0x68 then Sz1632 else Sz8), NONE);
            InstructionTable(opcode) == inst && PlainOpcode(opcode) && Fixup(inst, 0) == Ok(inst)
  {
  }

  /** PUSH of a segment register, 06, 0E, 16 and 1E: its selector. */
  lemma StepPushSegment(s: State, ps: seq<u8>, opcode: u8, rest: seq<u8>, env: Env)
    requires At(s, ps, opcode, rest) && (opcode == 0x06 || opcode == 0x0E || opcode == 0x16 || opcode == 0x1E)
    ensures Step.Step(s, env) == Ok(Pushed(Behind(s, |ps| + 1), s.segs[opcode / 8].selector))
  {
    hide CodeIs, Step.Step, Execute, InstructionTable, Behind, Finished, Fixup, PlainOpcode, Executing, PlaceOf;
    hide Pushed;
    var inst := Op(OpPush, 0, 0, NONE, ConstSeg(opcode / 8), NONE);
    PushSegmentRow(opcode);
    var i := StepPlainText(s, ps, opcode, rest, env, inst);
    ExecutingKeeps(s, ps, 0);
    SelectorRead(s, i.s, i.src1, opcode / 8);
    RunPush(i, env, s.segs[opcode / 8].selector);
    PushLands(s, ps, 0, s.segs[opcode / 8].selector);
  }

  lemma SelectorRead(s: State, e: State, d: Decoded, r: int)
    requires Denotes(s, e, d, Segment(r)) && e.segs == s.segs && 0 <= r
    ensures ReadSource(e, d) == if r < 6 then Ok(s.segs[r].selector) else Halted(HostUndefined)
    ensures r < 6 ==> Wrap32(s.segs[r].selector) == s.segs[r].selector
  {
    if r < 6 { WrapSmall(s.segs[r].selector); }
  }

  lemma PushSegmentRow(opcode: u8)
    requires opcode == 0x06 || opcode == 0x0E || opcode == 0x16 || opcode == 0x1E
    ensures var inst := Op(OpPush, 0, 0, NONE, ConstSeg(opcode / 8), NONE);
            InstructionTable(opcode) == inst && PlainOpcode(opcode) && Fixup(inst, 0) == Ok(inst)
  {
  }

  /** The group of FE and FF: what the reg field selects. */
  function CountGroup(opcode: u8, operation: OpType, subType: nat): Op
  {
    Op(operation, subType, USE_MODRM, Rm(ByteOrWord(opcode)), Rm(ByteOrWord(opcode)), NONE)
  }

  lemma GroupRows(opcode: u8)
    requires 0xFE <= opcode <= 0xFF
    ensures PlainOpcode(opcode) && UsesModrm(InstructionTable(opcode))
    ensures Fixup(InstructionTable(opcode), 0) == Ok(CountGroup(opcode, OpIncDec, ID_INC))
    ensures Fixup(InstructionTable(opcode), 1) == Ok(CountGroup(opcode, OpIncDec, ID_DEC))
    ensures Fixup(InstructionTable(opcode), 2) == Ok(CountGroup(opcode, OpCallNear, 0))
    ensures Fixup(InstructionTable(opcode), 4) == Ok(CountGroup(opcode, OpJump, ALWAYS))
    ensures Fixup(InstructionTable(opcode), 6) == Ok(CountGroup(opcode, OpPush, 0))
  {
  }

  /** PUSH of a ModR/M operand, FE and FF with reg field 6. */
  lemma StepPushRm(s: State, ps: seq<u8>, opcode: u8, rest: seq<u8>, env: Env)
    requires At(s, ps, opcode, rest) && 0xFE <= opcode <= 0xFF && HasRm(s, ps, rest) && RegOf(rest[0]) == 6
    ensures var (m, n) := (RmBytes(s, ps, rest), OperandBytes(s, ps, ByteOrWord(opcode)));
            Step.Step(s, env) ==
              if !RmDecodes(s, ps, rest) then Halted(HostUndefined)
              else Ok(Pushed(Behind(s, |ps| + 1 + m), Contents(s, RmPlace(s, ps, rest, n))))
  {
    hide CodeIs, Step.Step, Execute, InstructionTable, Behind, Finished, Fixup, PlainOpcode, Executing, PlaceOf;
    hide RmDecodes, Contents, RmBytes, RmPlace, TextAddress, Pushed;
    GroupRows(opcode);
    var i := StepModrmText(s, ps, opcode, rest, env, CountGroup(opcode, OpPush, 0));
    if RmDecodes(s, ps, rest) {
      var (rm, m) := (RmPlace(s, ps, rest, OperandBytes(s, ps, ByteOrWord(opcode))), RmBytes(s, ps, rest));
      ExecutingKeeps(s, ps, m);
      ReadsSource(s, i.s, i.src1, Held(rm));
      RunPush(i, env, Contents(s, rm));
      PushLands(s, ps, m, Contents(s, rm));
    }
  }

  // ----- POP -----

  lemma RunPop(s: State, i: Instruction, env: Env, p: Place)
    requires i.inst.opType.OpPop? && Denotes(s, i.s, i.dst, Held(p)) && i.s.mem == s.mem
    ensures Execute(i, env) == Ok(Assigned(Popped(i.s), p, OnTop(i.s)))
  {
    hide WriteDest, Assigned, PlaceOf, Top, OnTop, Location;
    PopIs(i.s);
    KeepsPlaces(i.s, Whole(ESP), i.s.regs[ESP] + SlotBytes(i.s), i.dst);
    KeepsMemory(i.s, i.s.regs[ESP] + SlotBytes(i.s));
    WritesPlace(Popped(i.s), i.dst, OnTop(i.s));
  }

  lemma KeepsMemory(s: State, v: int)
    ensures Assigned(s, Whole(ESP), v).mem == s.mem
  {
  }

  lemma PopLands(s: State, ps: seq<u8>, n: nat, p: Place)
    requires NothingPending(s) && IsPlace(s.mem, p)
    ensures Finished(s, Ok(Assigned(Popped(Executing(s, ps, n)), p, OnTop(Executing(s, ps, n))))) ==
            Ok(Assigned(Popped(Behind(s, |ps| + 1 + n)), p, OnTop(s)))
  {
    hide Assigned, Executing, Behind, Finished;
    ExecutingIs(s, ps, n);
    PoppedChange(s, ps, n);
    TwoLand(s, ps, n, Whole(ESP), s.regs[ESP] + SlotBytes(s), p, OnTop(s));
  }

  /** POP of a register, 58 to 5F: ESP moves first, so that POP ESP leaves the value. */
  lemma StepPopRegister(s: State, ps: seq<u8>, opcode: u8, rest: seq<u8>, env: Env)
    requires At(s, ps, opcode, rest) && 0x58 <= opcode <= 0x5F
    ensures Step.Step(s, env) ==
            Ok(Assigned(Popped(Behind(s, |ps| + 1)), Register(opcode % 8, OperandBytes(s, ps, Sz1632)), OnTop(s)))
  {
    hide CodeIs, Step.Step, Execute, InstructionTable, Behind, Finished, Fixup, PlainOpcode, Executing, PlaceOf;
    hide Popped, OnTop, Assigned;
    var inst := Op(OpPop, 0, 0, ConstReg(Sz1632, opcode % 8), NONE, NONE);
    PopRow(opcode);
    var i := StepPlainText(s, ps, opcode, rest, env, inst);
    var p := Register(opcode % 8, OperandBytes(s, ps, Sz1632));
    RunPop(s, i, env, p);
    PopLands(s, ps, 0, p);
  }

  lemma PopRow(opcode: u8)
    requires 0x58 <= opcode <= 0x5F
    ensures var inst := Op(OpPop, 0, 0, ConstReg(Sz1632, opcode % 8), NONE, NONE);
            InstructionTable(opcode) == inst && PlainOpcode(opcode) && Fixup(inst, 0) == Ok(inst)
  {
  }

  /** POP of a ModR/M operand, 8F: its address is computed before ESP moves. */
  lemma StepPopRm(s: State, ps: seq<u8>, rest: seq<u8>, env: Env)
    requires At(s, ps, 0x8F, rest) && HasRm(s, ps, rest)
    ensures var (m, n) := (RmBytes(s, ps, rest), OperandBytes(s, ps, Sz1632));
            Step.Step(s, env) ==
              if !RmDecodes(s, ps, rest) then Halted(HostUndefined)
              else Ok(Assigned(Popped(Behind(s, |ps| + 1 + m)), RmPlace(s, ps, rest, n), OnTop(s)))
  {
    hide CodeIs, Step.Step, Execute, InstructionTable, Behind, Finished, Fixup, PlainOpcode, Executing, PlaceOf;
    hide RmDecodes, RmBytes, RmPlace, TextAddress, Popped, OnTop, Assigned;
    var inst := Op(OpPop, 0, USE_MODRM, Rm(Sz1632), NONE, NONE);
    PopRmRow(RegOf(rest[0]));
    var i := StepModrmText(s, ps, 0x8F, rest, env, inst);
    if RmDecodes(s, ps, rest) {
      var rm := RmPlace(s, ps, rest, OperandBytes(s, ps, Sz1632));
      RunPop(s, i, env, rm);
      PopLands(s, ps, RmBytes(s, ps, rest), rm);
    }
  }

  lemma PopRmRow(reg: RegIndex)
    ensures var inst := Op(OpPop, 0, USE_MODRM, Rm(Sz1632), NONE, NONE);
            InstructionTable(0x8F) == inst && PlainOpcode(0x8F) && Fixup(inst, reg) == Ok(inst)
  {
  }

  // ----- CALL and RET -----

  lemma RunCallTo(i: Instruction, env: Env, target: u32)
    requires i.inst.opType.OpCallNear? && ReadSource(Pushed(i.s, i.s.eip), i.src1) == Ok(target)
    ensures Execute(i, env) == Ok(Pushed(i.s, i.s.eip).(eip := target))
  {
    hide ReadSource, Push, Pushed;
    PushIs(i.s, i.s.eip);
    WrapSmall(target);
  }

  lemma PushedChange(s: State, ps: seq<u8>, n: nat, v: int)
    requires NothingPending(s)
    ensures var (e, b) := (Executing(s, ps, n), Behind(s, |ps| + 1 + n));
            SameChange(e, Pushed(e, v), b, Pushed(b, v)) && e.eip == b.eip && Pushed(e, v).segs == s.segs
            && |Pushed(e, v).mem| == |s.mem|
  {
    hide Executing, Behind, Digits;
    ExecutingIs(s, ps, n);
  }

  /** CALL of a ModR/M operand, FE and FF with reg field 2: the return address is pushed, and then the operand is read
      at the place it names before the push. */
  lemma StepCallRm(s: State, ps: seq<u8>, opcode: u8, rest: seq<u8>, env: Env)
    requires At(s, ps, opcode, rest) && 0xFE <= opcode <= 0xFF && HasRm(s, ps, rest) && RegOf(rest[0]) == 2
    ensures IsPlace(s.mem, RmPlace(s, ps, rest, OperandBytes(s, ps, ByteOrWord(opcode))))
    ensures var rm := RmPlace(s, ps, rest, OperandBytes(s, ps, ByteOrWord(opcode)));
            var b := Behind(s, |ps| + 1 + RmBytes(s, ps, rest));
            var u := Pushed(b, b.eip);
            Step.Step(s, env) ==
              if !RmDecodes(s, ps, rest) then Halted(HostUndefined) else Ok(u.(eip := Wrap32(Contents(u, rm))))
  {
    hide CodeIs, Step.Step, Execute, InstructionTable, Behind, Finished, Fixup, PlainOpcode, Executing, PlaceOf;
    hide RmDecodes, Contents, RmBytes, RmPlace, TextAddress, Pushed, ReadSource, IsPlace, Location;
    GroupRows(opcode);
    RmIsPlace(s, ps, rest, OperandBytes(s, ps, ByteOrWord(opcode)));
    var i := StepModrmText(s, ps, opcode, rest, env, CountGroup(opcode, OpCallNear, 0));
    if RmDecodes(s, ps, rest) {
      var (rm, m) := (RmPlace(s, ps, rest, OperandBytes(s, ps, ByteOrWord(opcode))), RmBytes(s, ps, rest));
      var (e, b) := (i.s, Behind(s, |ps| + 1 + m));
      PushedChange(s, ps, m, e.eip);
      ExecutingKeeps(s, ps, m);
      var (t, u) := (Pushed(e, e.eip), Pushed(b, b.eip));
      SamePlaceOf(e, t, i.src1);
      ReadsPlace(t, i.src1);
      Below(t, i.src1);
      SameIsPlace(s, t, rm);
      SamePlaces(t, u, rm, 0);
      RunCallTo(i, env, Contents(t, rm));
      ChangeLands(s, ps, m, t.(eip := Contents(t, rm)), u.(eip := Contents(t, rm)));
      WrapSmall(Contents(u, rm));
    }
  }

  lemma RmIsPlace(s: State, ps: seq<u8>, rest: seq<u8>, n: nat)
    requires HasRm(s, ps, rest) && n <= 4
    ensures IsPlace(s.mem, RmPlace(s, ps, rest, n))
  {
    hide TextAddress;
  }

  lemma SamePlaceOf(e: State, t: State, d: Decoded)
    requires Location(d) && e.segs == t.segs && |e.mem| == |t.mem|
    ensures PlaceOf(e, d) == PlaceOf(t, d)
  {
  }

  lemma SameIsPlace(s: State, t: State, p: Place)
    requires |s.mem| == |t.mem| && IsPlace(s.mem, p)
    ensures IsPlace(t.mem, p)
  {
  }

  lemma RunRetNear(i: Instruction, env: Env, n: u32)
    requires i.inst.opType.OpRetNear? && ReadSource(i.s, i.src1) == Ok(n)
    ensures Execute(i, env) ==
            Ok(Assigned(i.s, Whole(ESP), i.s.regs[ESP] + SlotBytes(i.s) + n).(eip := OnTop(i.s)))
  {
    hide ReadSource, Top, OnTop;
    PopIs(i.s);
    var d := Drop(i.s);
    SetTwice(i.s, n);
    hide SetReg32, Assigned, Drop;
    assert Execute(i, env) == Ok(SetReg32(d, ESP, d.regs[ESP] + n).(eip := Top(i.s)));
  }

  lemma SetTwice(s: State, n: u32)
    ensures var d := Popped(s);
            SetReg32(d, ESP, d.regs[ESP] + n) == Assigned(s, Whole(ESP), s.regs[ESP] + SlotBytes(s) + n)
  {
    var (r, w) := (s.regs, SlotBytes(s));
    WrapTwice(r[ESP] + w, n);
    assert r[ESP := Wrap32(r[ESP] + w)][ESP := Wrap32(r[ESP] + w + n)] == r[ESP := Wrap32(r[ESP] + w + n)];
  }

  /** RET, C2 and C3: EIP is the value at SS:ESP, and ESP moves by a slot and the word behind C2. */
  lemma StepRetNear(s: State, ps: seq<u8>, opcode: u8, rest: seq<u8>, env: Env)
    requires At(s, ps, opcode, rest) && (opcode == 0xC3 || (opcode == 0xC2 && |rest| >= 2))
    ensures var (k, n) := if opcode == 0xC2 then (2, Number(rest[..2])) else (0, 0);
            Step.Step(s, env) ==
              Ok(Assigned(Behind(s, |ps| + 1 + k), Whole(ESP), s.regs[ESP] + SlotBytes(s) + n).(eip := OnTop(s)))
  {
    hide CodeIs, Step.Step, Execute, InstructionTable, Behind, Finished, Fixup, PlainOpcode, Executing, PlaceOf;
    hide OnTop, Number, Assigned, TextOperand, SameChange;
    var inst := Op(OpRetNear, 0, 0, NONE, if opcode == 0xC2 then Imm(Sz16) else Constant(Sz16, 0), NONE);
    RetRow(opcode);
    var i := StepPlainText(s, ps, opcode, rest, env, inst);
    var (k, n) := if opcode == 0xC2 then (2, Number(rest[..2])) else (0, 0);
    ExecutingIs(s, ps, k);
    PoppedChange(s, ps, k);
    RetOperand(s, ps, rest, opcode, n);
    ReadsSource(s, i.s, i.src1, Value(n));
    RunRetNear(i, env, n);
    var v := s.regs[ESP] + SlotBytes(s) + n;
    ReturnChange(i.s, Behind(s, |ps| + 1 + k), v, OnTop(s));
    ChangeLands(s, ps, k, Assigned(i.s, Whole(ESP), v).(eip := OnTop(s)),
                Assigned(Behind(s, |ps| + 1 + k), Whole(ESP), v).(eip := OnTop(s)));
  }

  lemma RetOperand(s: State, ps: seq<u8>, rest: seq<u8>, opcode: u8, n: nat)
    requires if opcode == 0xC2 then |rest| >= 2 && n == Number(rest[..2]) else n == 0
    ensures var op := if opcode == 0xC2 then Imm(Sz16) else Constant(Sz16, 0);
            && TextBytes(s, ps, op) == (if opcode == 0xC2 then 2 else 0)
            && TextOperand(s, ps, rest, 0, 0, op) == Value(n)
  {
    hide Number;
    if opcode == 0xC2 { assert rest[0..0 + 2] == rest[..2]; }
  }

  lemma ReturnChange(e: State, b: State, v: int, eip: u32)
    requires e.regs == b.regs && e.mem == b.mem && e.segs == b.segs && e.eflags == b.eflags
    ensures SameChange(e, Assigned(e, Whole(ESP), v).(eip := eip), b, Assigned(b, Whole(ESP), v).(eip := eip))
  {
  }

  lemma RetRow(opcode: u8)
    requires opcode == 0xC2 || opcode == 0xC3
    ensures var inst := Op(OpRetNear, 0, 0, NONE, if opcode == 0xC2 then Imm(Sz16) else Constant(Sz16, 0), NONE);
            InstructionTable(opcode) == inst && PlainOpcode(opcode) && Fixup(inst, 0) == Ok(inst)
  {
  }

  // ----- The same change to two states -----

  lemma SameSlots(e: State, t: State, b: State, u: State)
    requires SameChange(e, t, b, u)
    ensures t.regs == u.regs && t.mem == u.mem && t.segs == u.segs && t.eflags == u.eflags
    ensures OnTop(t) == OnTop(u)
  {
    hide Number;
  }

  lemma PushChange(e: State, t: State, b: State, u: State, v: int)
    requires SameChange(e, t, b, u)
    ensures SameChange(e, Pushed(t, v), b, Pushed(u, v))
  {
    hide Digits;
  }

  lemma PopChange(e: State, t: State, b: State, u: State)
    requires SameChange(e, t, b, u)
    ensures SameChange(e, Popped(t), b, Popped(u))
  {
  }

  lemma PlaceChange(e: State, t: State, b: State, u: State, p: Place, v: int)
    requires SameChange(e, t, b, u) && IsPlace(t.mem, p)
    ensures SameChange(e, Assigned(t, p, v), b, Assigned(u, p, v))
  {
    hide Digits;
  }

  lemma FlagsChanged(e: State, t: State, b: State, u: State, f: Bits32)
    requires SameChange(e, t, b, u)
    ensures SameChange(e, t.(eflags := f), b, u.(eflags := f))
  {
  }
}
