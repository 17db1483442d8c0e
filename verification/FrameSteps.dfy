/** Whole instructions that use the stack more than once or save the flags, behind any prefixes. */
module FrameSteps {
  import opened Words
  import opened I386
  import opened Machine
  import opened Step
  import opened RunInvariants
  import opened Disassembler
  import opened Instructions
  import opened Places
  import opened Texts
  import opened MoveSteps
  import opened StackSteps

  // ----- Pushing and popping lists, by places -----

  /** The last of the values ends up on top. */
  function PushedList(s: State, vs: seq<int>): State
    decreases vs
  {
    if vs == [] then s else PushedList(Pushed(s, vs[0]), vs[1..])
  }

  /** Each register in turn takes `n` bytes of what is on top. */
  function PoppedList(s: State, ids: seq<RegIndex>, n: nat): State
    decreases ids
  {
    if ids == [] then s else PoppedList(Assigned(Popped(s), Register(ids[0], n), OnTop(s)), ids[1..], n)
  }

  /** Over the stored ESP: a double word up, or a word in SP alone. */
  function Skipped(s: State, wide: bool): State
  {
    if wide then Assigned(s, Whole(ESP), s.regs[ESP] as int + 4) else Assigned(s, LowWord(ESP), s.regs[ESP] as int + 2)
  }

  /** EDI, ESI and EBP, over the stored ESP, and EBX, EDX, ECX and EAX. */
  function PoppedAll(s: State, n: nat, wide: bool): State
  {
    PoppedList(Skipped(PoppedList(s, [EDI, ESI, EBP], n), wide), [EBX, EDX, ECX, EAX], n)
  }

  lemma {:induction false} PushAllIs(s: State, vs: seq<int>)
    ensures PushAll(s, vs) == PushedList(s, vs)
    decreases vs
  {
    hide Push, Pushed;
    if vs != [] {
      PushIs(s, vs[0]);
      PushAllIs(Pushed(s, vs[0]), vs[1..]);
    }
  }

  lemma {:induction false} PopIntoIs(s: State, ids: seq<RegIndex>)
    ensures PopInto(s, ids) == PoppedList(s, ids, if OpSize32(s) then 4 else 2)
    decreases ids
  {
    hide Top, Drop, Popped, OnTop, SetReg16, SetReg32, Assigned;
    if ids != [] {
      var n := if OpSize32(s) then 4 else 2;
      PopIs(s);
      var t := Popped(s);
      RegisterSet(t, ids[0], OnTop(s));
      SizeKept(s, Register(ids[0], n), OnTop(s));
      var u := Assigned(t, Register(ids[0], n), OnTop(s));
      PopIntoIs(u, ids[1..]);
    }
  }

  lemma RegisterSet(s: State, r: RegIndex, v: int)
    ensures SetReg32(s, r, v) == Assigned(s, Register(r, 4), v) && SetReg16(s, r, v) == Assigned(s, Register(r, 2), v)
  {
    SplitRegister(s.regs[r]);
  }

  lemma SizeKept(s: State, p: Place, v: int)
    requires !p.Cells?
    ensures OpSize32(Assigned(Popped(s), p, v)) == OpSize32(s)
  {
  }

  lemma SkippedIs(s: State)
    ensures SkipStored(s) == Skipped(s, OpSize32(s))
  {
    hide SetReg16, SetReg32, Assigned, OpSize32;
    RegisterSet(s, ESP, s.regs[ESP] as int + 4);
    RegisterSet(s, ESP, s.regs[ESP] as int + 2);
  }

  lemma PopaIs(s: State)
    ensures var n := if OpSize32(s) then 4 else 2;
            DoPopa(s) == PoppedAll(s, n, OpSize32(s))
  {
    hide PopInto, PoppedList, Skipped, SkipStored;
    PopIntoIs(s, [EDI, ESI, EBP]);
    var t := PopInto(s, [EDI, ESI, EBP]);
    SkippedIs(t);
    SkipControl(t);
    PopIntoIs(SkipStored(t), [EBX, EDX, ECX, EAX]);
  }

  lemma SkipControl(s: State)
    ensures SameControl(s, SkipStored(s))
  {
  }

  /** The instructions without operands: PUSHA, POPA, PUSHF, POPF and LEAVE. */
  lemma FrameRows()
    ensures InstructionTable(0x60) == Plain(OpPusha, 0) && InstructionTable(0x61) == Plain(OpPopa, 0)
    ensures InstructionTable(0x9C) == Plain(OpPushf, 0) && InstructionTable(0x9D) == Plain(OpPopf, 0)
    ensures InstructionTable(0xC9) == Plain(OpLeave, 0)
    ensures PlainOpcode(0x60) && PlainOpcode(0x61) && PlainOpcode(0x9C) && PlainOpcode(0x9D) && PlainOpcode(0xC9)
    ensures forall t :: t in {OpPusha, OpPopa, OpPushf, OpPopf, OpLeave} ==> Fixup(Plain(t, 0), 0) == Ok(Plain(t, 0))
  {
  }

  lemma RunFrame(i: Instruction, env: Env)
    ensures i.inst == Plain(OpPusha, 0) ==> Execute(i, env) == Ok(DoPusha(i.s))
    ensures i.inst == Plain(OpPopa, 0) ==> Execute(i, env) == Ok(DoPopa(i.s))
    ensures i.inst == Plain(OpPushf, 0) ==> Execute(i, env) == Ok(DoPushf(i.s))
    ensures i.inst == Plain(OpPopf, 0) ==> Execute(i, env) == Ok(DoPopf(i.s))
    ensures i.inst == Plain(OpLeave, 0) ==> Execute(i, env) == Ok(DoLeave(i.s))
  {
    hide DoPusha, DoPopa, DoPushf, DoPopf, DoLeave;
  }

  // ----- The same change to the state behind the instruction -----

  lemma {:induction false} PushListChange(e: State, t: State, b: State, u: State, vs: seq<int>)
    requires SameChange(e, t, b, u)
    ensures SameChange(e, PushedList(t, vs), b, PushedList(u, vs))
    decreases vs
  {
    hide SameChange, Pushed;
    if vs != [] {
      PushChange(e, t, b, u, vs[0]);
      PushListChange(e, Pushed(t, vs[0]), b, Pushed(u, vs[0]), vs[1..]);
    }
  }

  lemma {:induction false} PopListChange(e: State, t: State, b: State, u: State, ids: seq<RegIndex>, n: nat)
    requires SameChange(e, t, b, u)
    ensures SameChange(e, PoppedList(t, ids, n), b, PoppedList(u, ids, n))
    decreases ids
  {
    hide SameChange, Popped, OnTop, Assigned;
    if ids != [] {
      PopChange(e, t, b, u);
      SameSlots(e, t, b, u);
      var (p, v) := (Register(ids[0], n), OnTop(t));
      PlaceChange(e, Popped(t), b, Popped(u), p, v);
      PopListChange(e, Assigned(Popped(t), p, v), b, Assigned(Popped(u), p, v), ids[1..], n);
    }
  }

  // ----- PUSHA and POPA -----

  /** PUSHA, 60: EAX, ECX, EDX, EBX, the ESP from before, EBP, ESI and EDI, at the stack's width. */
  lemma StepPusha(s: State, ps: seq<u8>, rest: seq<u8>, env: Env)
    requires At(s, ps, 0x60, rest)
    ensures Step.Step(s, env) ==
            Ok(PushedList(Behind(s, |ps| + 1), [s.regs[0], s.regs[1], s.regs[2], s.regs[3], s.regs[4], s.regs[5],
                                                s.regs[6], s.regs[7]]))
  {
    hide CodeIs, Step.Step, Execute, InstructionTable, Behind, Finished, Fixup, PlainOpcode, Executing, LastSegment;
    hide PushAll, PushedList, SameChange;
    FrameRows();
    var i := StepPlain(s, ps, 0x60, rest, env, Plain(OpPusha, 0));
    ExecutingKeeps(s, ps, 0);
    RunFrame(i, env);
    var r := s.regs;
    var vs: seq<int> := [r[0], r[1], r[2], r[3], r[4], r[5], r[6], r[7]];
    PushAllIs(i.s, vs);
    NoChange(s, ps, 0);
    PushListChange(i.s, i.s, Behind(s, |ps| + 1), Behind(s, |ps| + 1), vs);
    ChangeLands(s, ps, 0, PushedList(i.s, vs), PushedList(Behind(s, |ps| + 1), vs));
  }

  /** POPA, 61: the registers in that order, each at the operand size. */
  lemma StepPopa(s: State, ps: seq<u8>, rest: seq<u8>, env: Env)
    requires At(s, ps, 0x61, rest)
    ensures var n := OperandBytes(s, ps, Sz1632);
            Step.Step(s, env) == Ok(PoppedAll(Behind(s, |ps| + 1), n, Wide(s, ps)))
  {
    hide CodeIs, Step.Step, Execute, InstructionTable, Behind, Finished, Fixup, PlainOpcode, Executing, LastSegment;
    hide DoPopa, PoppedAll, SameChange;
    FrameRows();
    var i := StepPlain(s, ps, 0x61, rest, env, Plain(OpPopa, 0));
    RunFrame(i, env);
    PopaIs(i.s);
    var (e, b, n, w) := (i.s, Behind(s, |ps| + 1), OperandBytes(s, ps, Sz1632), Wide(s, ps));
    NoChange(s, ps, 0);
    PopaChange(e, b, n, w);
    ChangeLands(s, ps, 0, PoppedAll(e, n, w), PoppedAll(b, n, w));
  }

  lemma PopaChange(e: State, b: State, n: nat, w: bool)
    requires SameChange(e, e, b, b)
    ensures SameChange(e, PoppedAll(e, n, w), b, PoppedAll(b, n, w))
  {
    hide PoppedList, SameChange, Assigned;
    PopListChange(e, e, b, b, [EDI, ESI, EBP], n);
    var (t, u) := (PoppedList(e, [EDI, ESI, EBP], n), PoppedList(b, [EDI, ESI, EBP], n));
    SameSlots(e, t, b, u);
    PlaceChange(e, t, b, u, Whole(ESP), t.regs[ESP] as int + 4);
    PlaceChange(e, t, b, u, LowWord(ESP), t.regs[ESP] as int + 2);
    PopListChange(e, Skipped(t, w), b, Skipped(u, w), [EBX, EDX, ECX, EAX], n);
  }

  // ----- PUSHF, POPF, LEAVE and ENTER -----

  /** PUSHF, 9C. */
  lemma StepPushf(s: State, ps: seq<u8>, rest: seq<u8>, env: Env)
    requires At(s, ps, 0x9C, rest)
    ensures Step.Step(s, env) == Ok(Pushed(Behind(s, |ps| + 1), ToWord(s.eflags)))
  {
    hide CodeIs, Step.Step, Execute, InstructionTable, Behind, Finished, Fixup, PlainOpcode, Executing, LastSegment;
    hide Pushed, Push, ToWord;
    FrameRows();
    var i := StepPlain(s, ps, 0x9C, rest, env, Plain(OpPushf, 0));
    ExecutingKeeps(s, ps, 0);
    RunFrame(i, env);
    PushIs(i.s, ToWord(s.eflags));
    PushLands(s, ps, 0, ToWord(s.eflags));
  }

  /** POPF, 9D: the flags are the bits of what is on top; with 16-bit operands the upper sixteen stay. */
  lemma StepPopf(s: State, ps: seq<u8>, rest: seq<u8>, env: Env)
    requires At(s, ps, 0x9D, rest)
    ensures var b := Behind(s, |ps| + 1);
            var t := Step.Step(s, env);
            && t.Ok? && t.value == Popped(b).(eflags := t.value.eflags)
            && forall k :: 0 <= k < 32 ==>
                 (t.value.eflags[k] <==> if k < 16 || Wide(s, ps) then BitOf(OnTop(s), k) else s.eflags[k])
  {
    hide CodeIs, Step.Step, Execute, InstructionTable, Behind, Finished, Fixup, PlainOpcode, Executing, LastSegment;
    hide Popped, OnTop, ToWord, BitOf, DoPopf;
    FrameRows();
    var i := StepPlain(s, ps, 0x9D, rest, env, Plain(OpPopf, 0));
    RunFrame(i, env);
    PoppedChange(s, ps, 0);
    PopfIs(i.s, Wide(s, ps));
    ExecutingKeeps(s, ps, 0);
    var (t, b) := (DoPopf(i.s), Behind(s, |ps| + 1));
    ChangeLands(s, ps, 0, t, Popped(b).(eflags := t.eflags));
  }

  lemma PopfIs(s: State, wide: bool)
    requires OpSize32(s) == wide
    ensures DoPopf(s) == Popped(s).(eflags := DoPopf(s).eflags)
    ensures forall k :: 0 <= k < 32 ==>
              (DoPopf(s).eflags[k] <==> if k < 16 || wide then BitOf(OnTop(s), k) else s.eflags[k])
  {
    hide Popped, OnTop, BitOf, ToBits, ToWord, Top, Drop, PutLow16, OpSize32;
    PopIs(s);
    forall k | 0 <= k < 32
      ensures DoPopf(s).eflags[k] <==> if k < 16 || wide then BitOf(OnTop(s), k) else s.eflags[k]
    {
      FlagsBit(if wide then OnTop(s) else PutLow16(ToWord(s.eflags), OnTop(s)), k);
      if !wide {
        LowHalfBits(ToWord(s.eflags), OnTop(s), k);
        FlagBit(s.eflags, k);
      }
    }
  }

  lemma FlagsBit(w: u32, k: nat)
    requires k < 32
    ensures ToBits(w)[k] <==> BitOf(w, k)
  {
    BitsAre(w, 32, k);
  }

  /** The low half of a register's bits are the written ones, and the upper half the register's own. */
  lemma LowHalfBits(x: u32, w: u32, k: nat)
    requires k < 32
    ensures BitOf(PutLow16(x, w), k) <==> if k < 16 then BitOf(w, k) else BitOf(x, k)
  {
    var y := PutLow16(x, w);
    PartialWrites(x, w);
    if k < 16 {
      LowBits(y, k);
      LowBits(w, k);
    } else {
      HighBits(y, k - 16);
      HighBits(x, k - 16);
    }
  }

  lemma LowBits(x: nat, k: nat)
    requires k < 16
    ensures BitOf(x, k) <==> BitOf(x % TWO16, k)
  {
    Sixteen();
    BitsBelow(x, 16, k);
  }

  lemma Sixteen()
    ensures Pow2(16) == TWO16
  {
    assert Pow2(8) == 0x100;
  }

  lemma {:induction false} PowersMultiply(a: nat, b: nat)
    ensures Pow2(a) * Pow2(b) == Pow2(a + b)
    decreases a
  {
    if a > 0 {
      PowersMultiply(a - 1, b);
      assert 2 * Pow2(a - 1) * Pow2(b) == 2 * (Pow2(a - 1) * Pow2(b));
    }
  }

  lemma HighBits(x: nat, k: nat)
    ensures BitOf(x, k + 16) <==> BitOf(x / TWO16, k)
  {
    PowersMultiply(16, k);
    Sixteen();
    DivideTwice(x, TWO16, Pow2(k));
  }

  lemma DivideTwice(x: nat, a: nat, b: nat)
    requires a > 0 && b > 0
    ensures a * b > 0 && x / a / b == x / (a * b)
  {
    var (q, r) := (x / a, x % a);
    var (p, t) := (q / b, q % b);
    assert x == a * q + r && q == b * p + t;
    assert a * (b * p + t) == (a * b) * p + a * t;
    assert a * t + r < a * b by { ProductAtLeast(b - t, a); SplitProduct(b, t, a); }
    assert a * b > 0;
    DivModUnique(x, p, a * t + r, a * b);
  }

  /** LEAVE, C9: ESP, or SP with a 16-bit stack, becomes EBP; then EBP is popped, in full. */
  lemma StepLeave(s: State, ps: seq<u8>, rest: seq<u8>, env: Env)
    requires At(s, ps, 0xC9, rest)
    ensures Step.Step(s, env) == Ok(Left(Behind(s, |ps| + 1)))
  {
    hide CodeIs, Step.Step, Execute, InstructionTable, Behind, Finished, Fixup, PlainOpcode, Executing, LastSegment;
    hide Left, DoLeave, SameChange;
    FrameRows();
    var i := StepPlain(s, ps, 0xC9, rest, env, Plain(OpLeave, 0));
    RunFrame(i, env);
    LeaveIs(i.s);
    NoChange(s, ps, 0);
    LeaveChange(i.s, Behind(s, |ps| + 1));
    ChangeLands(s, ps, 0, Left(i.s), Left(Behind(s, |ps| + 1)));
  }

  function Left(s: State): State
  {
    var u := Assigned(s, if s.segs[SS].use32 then Whole(ESP) else LowWord(ESP), s.regs[EBP]);
    Assigned(Popped(u), Whole(EBP), OnTop(u))
  }

  lemma LeaveIs(s: State)
    ensures DoLeave(s) == Left(s)
  {
    hide SetReg16, SetReg32, Assigned, Popped, OnTop, Top, Drop;
    RegisterSet(s, ESP, s.regs[EBP]);
    var u := Assigned(s, if s.segs[SS].use32 then Whole(ESP) else LowWord(ESP), s.regs[EBP]);
    PopIs(u);
    RegisterSet(Popped(u), EBP, OnTop(u));
  }

  lemma LeaveChange(e: State, b: State)
    requires SameChange(e, e, b, b)
    ensures SameChange(e, Left(e), b, Left(b))
  {
    hide Assigned, Popped, OnTop;
    var p := if e.segs[SS].use32 then Whole(ESP) else LowWord(ESP);
    PlaceChange(e, e, b, b, p, e.regs[EBP]);
    var (t, u) := (Assigned(e, p, e.regs[EBP]), Assigned(b, p, b.regs[EBP]));
    SameSlots(e, t, b, u);
    PopChange(e, t, b, u);
    PlaceChange(e, Popped(t), b, Popped(u), Whole(EBP), OnTop(t));
  }

  /** ENTER, C8: EBP is pushed, then the ESP behind it, which is also the new EBP; ESP goes down by the word in the
      text. The byte behind that word has no effect. */
  lemma StepEnter(s: State, ps: seq<u8>, rest: seq<u8>, env: Env)
    requires At(s, ps, 0xC8, rest) && |rest| >= 3
    ensures Step.Step(s, env) == Ok(Entered(Behind(s, |ps| + 4), Number(rest[..2])))
  {
    hide CodeIs, Step.Step, Execute, InstructionTable, Behind, Finished, Fixup, PlainOpcode, Executing, LastSegment;
    hide Entered, SameChange, RunBare, Prefixed, Number, Skip;
    StepAtText(s, ps, 0xC8, rest, env);
    var b := Prefixed(s, ps);
    EnterDecodes(b, rest, env);
    var e := Executing(s, ps, 3);
    ExecutingEnd(s, ps, 3);
    NoChange(s, ps, 3);
    EnterChange(e, Behind(s, |ps| + 4), Number(rest[..2]));
    ChangeLands(s, ps, 3, Entered(e, Number(rest[..2])), Entered(Behind(s, |ps| + 4), Number(rest[..2])));
  }

  lemma ExecutingEnd(s: State, ps: seq<u8>, n: nat)
    ensures Executing(s, ps, n) == Skip(Prefixed(s, ps), n).(oldEip := Skip(Prefixed(s, ps), n).eip)
  {
  }

  function Entered(s: State, n: nat): State
  {
    var t := Pushed(s, s.regs[EBP]);
    var u := Assigned(Pushed(t, t.regs[ESP]), Whole(EBP), t.regs[ESP]);
    Assigned(u, Whole(ESP), u.regs[ESP] as int - n)
  }

  const ENTER := Op(OpEnter, 0, 0, NONE, Imm(Sz16), Imm(Sz8))

  lemma EnterRow()
    ensures InstructionTable(0xC8) == ENTER && PlainOpcode(0xC8) && Fixup(ENTER, 0) == Ok(ENTER)
  {
  }

  lemma EnterDecodes(b: State, rest: seq<u8>, env: Env)
    requires CodeIs(b, rest) && |rest| >= 3
    ensures RunBare(b, 0xC8, env) == Ok(Entered(Skip(b, 3).(oldEip := Skip(b, 3).eip), Number(rest[..2])))
  {
    hide CodeIs, InstructionTable, Execute, Skip, Entered, Number, DecodeOperand, Fixup;
    EnterRow();
    CodeShifts(b, rest, 2);
    ImmediateValue(b, rest, Sz16);
    ImmediateValue(Skip(b, 2), rest[2..], Sz8);
    SkipTwice(b, 2, 1);
    SkipTwice(b, 0, 0);
    var (n, e) := (Number(rest[..2]), Skip(b, 3).(oldEip := Skip(b, 3).eip));
    EnterOperands(b, n);
    var i := DecodeOperands(b, NO_RM, 0, ENTER).value;
    RunEnter(i, env, n);
  }

  lemma EnterOperands(b: State, n: nat)
    requires ImmValue(b, Sz16) == n && Skip(Skip(b, 2), 1) == Skip(b, 3)
    ensures var r := DecodeOperands(b, NO_RM, 0, ENTER);
            && r.Ok? && r.value.inst == ENTER && r.value.src1 == Decoded(DImm, n, Sz16, 0)
            && r.value.s == Skip(b, 3).(oldEip := Skip(b, 3).eip)
  {
    hide Skip, Code8, Code16;
  }

  lemma RunEnter(i: Instruction, env: Env, n: u32)
    requires i.inst == ENTER && i.src1 == Decoded(DImm, n, Sz16, 0)
    ensures Execute(i, env) == Ok(Entered(i.s, n))
  {
    hide Push, Pushed, SetReg32, Assigned;
    PushIs(i.s, i.s.regs[EBP]);
    var t := Pushed(i.s, i.s.regs[EBP]);
    PushIs(t, t.regs[ESP]);
    RegisterSet(Pushed(t, t.regs[ESP]), EBP, t.regs[ESP]);
    var u := Assigned(Pushed(t, t.regs[ESP]), Whole(EBP), t.regs[ESP]);
    RegisterSet(u, ESP, u.regs[ESP] as int - n);
  }

  lemma EnterChange(e: State, b: State, n: nat)
    requires SameChange(e, e, b, b)
    ensures SameChange(e, Entered(e, n), b, Entered(b, n))
  {
    hide Assigned, Pushed;
    PushChange(e, e, b, b, e.regs[EBP]);
    var (t, u) := (Pushed(e, e.regs[EBP]), Pushed(b, b.regs[EBP]));
    SameSlots(e, t, b, u);
    var frame := t.regs[ESP];
    PushChange(e, t, b, u, frame);
    PlaceChange(e, Pushed(t, frame), b, Pushed(u, frame), Whole(EBP), frame);
    var (t', u') := (Assigned(Pushed(t, frame), Whole(EBP), frame), Assigned(Pushed(u, frame), Whole(EBP), frame));
    SameSlots(e, t', b, u');
    PlaceChange(e, t', b, u', Whole(ESP), t'.regs[ESP] as int - n);
  }

  /** The processor's ENTER pushes EBP alone; here ESP always ends one slot lower, and EBP is the same. */
  lemma EnterOneSlotLower(s: State, n: u16)
    ensures var (t, w) := (Entered(s, n), SlotBytes(s));
            && t.regs[EBP] == (s.regs[ESP] - w) % TWO32
            && t.regs[ESP] == (s.regs[ESP] - w - n - w) % TWO32 != (s.regs[ESP] - w - n) % TWO32
  {
    hide Pushed;
    var (esp, w) := (s.regs[ESP] as int, SlotBytes(s));
    PushedRegs(s, s.regs[EBP]);
    var t := Pushed(s, s.regs[EBP]);
    PushedRegs(t, t.regs[ESP]);
    WrapTwice(esp - w, -(w as int));
    WrapTwice(esp - w - w, -(n as int));
    assert esp - w - w - n == esp - w - n - w;
    NotSame(esp - w - n, w);
  }

  lemma PushedRegs(s: State, v: int)
    ensures Pushed(s, v).regs == s.regs[ESP := (s.regs[ESP] - SlotBytes(s)) % TWO32]
  {
    WrapSmall((s.regs[ESP] - SlotBytes(s)) % TWO32);
  }

  lemma NotSame(x: int, w: nat)
    requires w == 2 || w == 4
    ensures (x - w) % TWO32 != x % TWO32
  {
    var (q, r) := (x / TWO32, x % TWO32);
    if r >= w { DivModUnique(x - w, q, r - w, TWO32); } else { DivModUnique(x - w, q - 1, r - w + TWO32, TWO32); }
  }
}
