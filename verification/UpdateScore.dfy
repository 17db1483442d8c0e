/** The decimal printer of maverick/tests/bricks.asm, local label .1 of `update_score`, run on the interpreter. */
module UpdateScore {
  import opened Words
  import opened I386
  import opened Machine
  import opened Step
  import opened RunInvariants
  import opened Instructions
  import opened Thunks

  /** .1: xor cx,cx   .2: inc cx; sub ax,10; jnc .2; add ax,0A3Ah; call .3; xchg ax,cx; dec ax; jnz .1
      .3: mov [bx],ax; dec bx; dec bx; ret */
  const CODE: seq<u8> :=
    [0x31, 0xC9, 0x41, 0x83, 0xE8, 0x0A, 0x73, 0xFA, 0x05, 0x3A, 0x0A, 0xE8, 0x04, 0x00, 0x91, 0x48, 0x75, 0xEE,
     0x89, 0x07, 0x4B, 0x4B, 0xC3]

  /** The colour and character of a digit zero. */
  const ZERO_CELL := 0x0A30

  // ----- Decimal digits -----

  function Digits(n: nat): (d: nat)
    ensures d >= 1
  {
    if n < 10 then 1 else 1 + Digits(n / 10)
  }

  /** Decimal digit `k` of `n`, the least significant being digit 0. */
  function Digit(n: nat, k: nat): nat
    decreases k
  {
    if k == 0 then n % 10 else Digit(n / 10, k - 1)
  }

  /** The number with a given row of digits, least significant first. */
  function Denoted(digits: seq<nat>): nat { if digits == [] then 0 else digits[0] + 10 * Denoted(digits[1..]) }

  /** The digits of a number denote it, and it has no leading zero. */
  lemma {:induction false} DigitsDenote(n: nat)
    ensures Denoted(seq(Digits(n), k requires 0 <= k < Digits(n) => Digit(n, k))) == n
    ensures n > 0 ==> Digit(n, Digits(n) - 1) != 0
  {
    var ds := seq(Digits(n), k requires 0 <= k < Digits(n) => Digit(n, k));
    if n < 10 {
      assert ds[1..] == [];
    } else {
      var rest := seq(Digits(n / 10), k requires 0 <= k < Digits(n / 10) => Digit(n / 10, k));
      assert ds[1..] == rest;
      DigitsDenote(n / 10);
    }
  }

  // ----- The routine's states -----

  function Entry(s: State): u32 { Linear(s, CS, s.eip) }
  function CellAt(s: State, bx: int): u32 { Linear(s, DS, bx) }
  function SlotOf(s: State, esp: u32): u32 { Linear(s, SS, esp) }

  ghost predicate Start(s: State)
  {
    Real16(s) && s.eip + 23 <= TWO16 && Entry(s) + 23 <= Span(s.mem)
  }

  predicate HighKept(s0: State, s: State, r: RegIndex) { s.regs[r] / TWO16 == s0.regs[r] / TWO16 }

  /** What the routine leaves alone: everything but the low words of EAX, EBX and ECX, ESP, flags and memory. */
  ghost predicate Others(s0: State, s: State)
  {
    && s.segs == s0.segs && s.cr == s0.cr && NothingPending(s) && |s.mem| == |s0.mem|
    && s.regs[EDX] == s0.regs[EDX] && s.regs[EBP] == s0.regs[EBP] && s.regs[ESI] == s0.regs[ESI]
      && s.regs[EDI] == s0.regs[EDI]
    && HighKept(s0, s, EAX) && HighKept(s0, s, EBX) && HighKept(s0, s, ECX)
  }

  datatype Point = Point(eip: u32, ax: u16, bx: u16, cx: u16, esp: u32, mem: Memory)

  ghost predicate At(s0: State, s: State, p: Point)
  {
    && Others(s0, s) && s.eip == p.eip && s.regs[ESP] == p.esp && s.mem == p.mem
    && Reg16(s, EAX) == p.ax && Reg16(s, EBX) == p.bx && Reg16(s, ECX) == p.cx
  }

  /** The routine runs at `s`, `k` bytes behind its start. */
  ghost predicate Running(s0: State, s: State, k: nat, p: Point)
  {
    Start(s0) && At(s0, s, p) && p.eip == s0.eip + k && BytesAt(p.mem, Entry(s0), CODE)
  }

  lemma Fetch(s0: State, s: State, k: nat, p: Point, j: nat)
    requires Running(s0, s, k, p) && k + j < 23
    ensures Real16(s) && Code8(Skip(s, j)) == CODE[k + j] && s.eip == s0.eip + k
    ensures j == 0 ==> Code8(s) == CODE[k]
    ensures k + j + 1 < 23 ==> Code16(Skip(s, j)) == CODE[k + j] + TWO8 * CODE[k + j + 1]
  {
    hide Start, CODE;
    FetchAt(s0, s, k, p, j);
    assert p.mem[Entry(s0) + (k + j)] == CODE[k + j];
    if k + j + 1 < 23 { assert p.mem[Entry(s0) + (k + j + 1)] == CODE[k + j + 1]; }
  }

  lemma FetchAt(s0: State, s: State, k: nat, p: Point, j: nat)
    requires Running(s0, s, k, p) && k + j < 23
    ensures Real16(s) && CodeAddress(Skip(s, j)) == Entry(s0) + (k + j) < Span(p.mem) && (j == 0 ==> Skip(s, j) == s)
    ensures |CODE| == 23 && BytesAt(p.mem, Entry(s0), CODE)
  {
    hide CODE;
    CodeLength();
    WrapSmall(s.eip);
    WrapSmall(s.eip + j);
    EntryIs(s0, k + j);
  }

  lemma CodeLength()
    ensures |CODE| == 23
  {
  }

  /** Code addresses follow each other without wrapping. */
  lemma EntryIs(s: State, k: nat)
    requires Start(s) && k < 23
    ensures Wrap32(s.segs[CS].base + (s.eip + k)) == Entry(s) + k
  {
    hide Real16;
    WrapTwice(s.segs[CS].base + s.eip, k);
    WrapSmall(Entry(s) + k);
  }

  /** Replacing the low word of EAX, EBX or ECX. */
  lemma RegisterSet(s0: State, s: State, t: State, n: nat, r: RegIndex, v: int)
    requires Others(s0, s) && Updates(Behind(s, n), t, r, v) && (r == EAX || r == EBX || r == ECX)
    ensures Others(s0, t) && t.eip == Wrap32(s.eip + n) && t.mem == s.mem && t.regs[ESP] == s.regs[ESP]
    ensures Reg16(t, r) == Wrap16(v)
    ensures forall q: RegIndex :: q != r ==> t.regs[q] == s.regs[q]
  {
    hide PutLow16, Wrap32, Wrap16, Low16;
    PartialWrites(s.regs[r], v);
  }

  // ----- One instruction at a time -----

  lemma ClearsCx(s0: State, s: State, env: Env, p: Point) returns (t: State)
    requires Running(s0, s, 0, p)
    ensures Step.Step(s, env) == Ok(t) && Running(s0, t, 2, p.(eip := s0.eip + 2, cx := 0))
  {
    hide Step.Step, Code8, CODE, BytesAt, Start, Updates, Behind, Real16, Others, Reg16;
    Fetch(s0, s, 0, p, 0);
    Fetch(s0, s, 0, p, 1);
    CodeBytes();
    StepClearCx(s, env);
    t := Step.Step(s, env).value;
    RegisterSet(s0, s, t, 2, ECX, 0);
    Sets(s0, s, t, 0, p, 2, ECX, 0);
  }

  lemma CodeBytes()
    ensures CODE[0] == 0x31 && CODE[1] == 0xC9 && CODE[2] == 0x41 && CODE[3] == 0x83 && CODE[4] == 0xE8 && CODE[5] == 10
    ensures CODE[6] == 0x73 && CODE[7] == 0xFA && CODE[8] == 0x05 && CODE[9] == 0x3A && CODE[10] == 0x0A
  {
  }

  lemma MoreCodeBytes()
    ensures CODE[11] == 0xE8 && CODE[12] == 4 && CODE[13] == 0 && CODE[14] == 0x91 && CODE[15] == 0x48
        && CODE[16] == 0x75
    ensures CODE[17] == 0xEE && CODE[18] == 0x89 && CODE[19] == 7 && CODE[20] == 0x4B && CODE[21] == 0x4B
        && CODE[22] == 0xC3
  {
  }

  function Put(p: Point, n: nat, r: RegIndex, v: int): Point
    requires p.eip + n < TWO32
  {
    var q := p.(eip := p.eip + n);
    if r == EAX then q.(ax := Wrap16(v)) else if r == EBX then q.(bx := Wrap16(v)) else q.(cx := Wrap16(v))
  }

  /** An instruction of `n` bytes that replaces the low word of one register. */
  lemma Sets(s0: State, s: State, t: State, k: nat, p: Point, n: nat, r: RegIndex, v: int)
    requires Running(s0, s, k, p) && k + n <= 23 && Updates(Behind(s, n), t, r, v) && (r == EAX || r == EBX || r == ECX)
    ensures Running(s0, t, k + n, Put(p, n, r, v))
  {
    hide BytesAt, CODE, Others, Updates, Behind, Wrap16;
    RegisterSet(s0, s, t, n, r, v);
    WrapSmall(p.eip + n);
  }

  lemma CountsUp(s0: State, s: State, env: Env, p: Point) returns (t: State)
    requires Running(s0, s, 2, p)
    ensures Step.Step(s, env) == Ok(t) && Running(s0, t, 3, p.(eip := s0.eip + 3, cx := Wrap16(p.cx + 1)))
  {
    hide Step.Step, Code8, CODE, BytesAt, Start, Updates, Behind, Real16, Others, Reg16, Wrap16;
    Fetch(s0, s, 2, p, 0);
    CodeBytes();
    StepIncDec(s, env, ECX, false);
    t := Step.Step(s, env).value;
    Sets(s0, s, t, 2, p, 1, ECX, p.cx + 1);
  }

  lemma SubtractsTen(s0: State, s: State, env: Env, p: Point) returns (t: State)
    requires Running(s0, s, 3, p)
    ensures Step.Step(s, env) == Ok(t) && Running(s0, t, 6, p.(eip := s0.eip + 6, ax := Wrap16(p.ax as int - 10)))
    ensures t.eflags[CARRY] <==> p.ax < 10
  {
    hide Step.Step, Code8, CODE, BytesAt, Start, Updates, Behind, Real16, Others, Reg16, Wrap16;
    Fetch(s0, s, 3, p, 0);
    Fetch(s0, s, 3, p, 1);
    Fetch(s0, s, 3, p, 2);
    CodeBytes();
    StepSubAx(s, env, 10);
    t := Step.Step(s, env).value;
    Sets(s0, s, t, 3, p, 3, EAX, p.ax as int - 10);
  }

  /** A jump not taken, or taken to `target`. */
  lemma Goes(s0: State, s: State, t: State, k: nat, p: Point, target: nat)
    requires Running(s0, s, k, p) && k + 2 <= 22 && target < 23
    requires t == Behind(s, 2).(eip := s0.eip + target)
    ensures Running(s0, t, target, p.(eip := s0.eip + target))
  {
    hide BytesAt, CODE;
  }

  lemma JumpsBack(s0: State, s: State, env: Env, p: Point) returns (t: State)
    requires Running(s0, s, 6, p)
    ensures Step.Step(s, env) == Ok(t)
    ensures var target := if s.eflags[CARRY] then 8 else 2; Running(s0, t, target, p.(eip := s0.eip + target))
  {
    hide Step.Step, Code8, CODE, BytesAt, Start, Real16, Others, Reg16;
    Fetch(s0, s, 6, p, 0);
    Fetch(s0, s, 6, p, 1);
    CodeBytes();
    StepJump(s, env, JAE);
    t := Step.Step(s, env).value;
    InStart(s0);
    WrapSmall(s0.eip + 8);
    WrapSmall(s0.eip + 2);
    Goes(s0, s, t, 6, p, if s.eflags[CARRY] then 8 else 2);
  }

  lemma InStart(s0: State)
    requires Start(s0)
    ensures s0.eip + 23 <= TWO16
  {
  }

  /** The colour and the character are added to the remainder. */
  lemma AddsCell(s0: State, s: State, env: Env, p: Point) returns (t: State)
    requires Running(s0, s, 8, p)
    ensures Step.Step(s, env) == Ok(t)
        && Running(s0, t, 11, p.(eip := s0.eip + 11, ax := Wrap16(p.ax + ZERO_CELL + 10)))
  {
    hide Step.Step, Code8, Code16, CODE, BytesAt, Start, Updates, Behind, Real16, Others, Reg16, Wrap16;
    Fetch(s0, s, 8, p, 0);
    Fetch(s0, s, 8, p, 1);
    CodeBytes();
    StepAddAx(s, env, ZERO_CELL + 10);
    t := Step.Step(s, env).value;
    Sets(s0, s, t, 8, p, 3, EAX, p.ax + ZERO_CELL + 10);
  }

  lemma Exchanges(s0: State, s: State, env: Env, p: Point) returns (t: State)
    requires Running(s0, s, 14, p)
    ensures Step.Step(s, env) == Ok(t) && Running(s0, t, 15, p.(eip := s0.eip + 15, ax := p.cx, cx := p.ax))
  {
    hide Step.Step, Code8, CODE, BytesAt, Start, Real16, Others, Behind, SetReg16;
    Fetch(s0, s, 14, p, 0);
    MoreCodeBytes();
    StepXchgAxCx(s, env);
    t := Step.Step(s, env).value;
    BothSet(s0, s, t, p);
  }

  lemma BothSet(s0: State, s: State, t: State, p: Point)
    requires Running(s0, s, 14, p) && t == SetReg16(SetReg16(Behind(s, 1), EAX, Reg16(s, ECX)), ECX, Reg16(s, EAX))
    ensures Running(s0, t, 15, p.(eip := s0.eip + 15, ax := p.cx, cx := p.ax))
  {
    hide BytesAt, CODE, PutLow16, Wrap16, Low16;
    PartialWrites(s.regs[EAX], Reg16(s, ECX));
    PartialWrites(s.regs[ECX], Reg16(s, EAX));
    WrapSmall(s0.eip + 15);
    Short(Reg16(s, EAX));
    Short(Reg16(s, ECX));
  }

  lemma Short(v: u16)
    ensures Wrap16(v) == v
  {
  }

  lemma CountsDown(s0: State, s: State, env: Env, p: Point) returns (t: State)
    requires Running(s0, s, 15, p)
    ensures Step.Step(s, env) == Ok(t) && Running(s0, t, 16, p.(eip := s0.eip + 16, ax := Wrap16(p.ax as int - 1)))
    ensures t.eflags[ZERO] <==> Wrap16(p.ax as int - 1) == 0
  {
    hide Step.Step, Code8, CODE, BytesAt, Start, Updates, Behind, Real16, Others, Reg16, Wrap16;
    Fetch(s0, s, 15, p, 0);
    MoreCodeBytes();
    StepIncDec(s, env, EAX, true);
    t := Step.Step(s, env).value;
    Sets(s0, s, t, 15, p, 1, EAX, p.ax as int - 1);
  }

  lemma JumpsToStart(s0: State, s: State, env: Env, p: Point) returns (t: State)
    requires Running(s0, s, 16, p)
    ensures Step.Step(s, env) == Ok(t)
    ensures var target := if s.eflags[ZERO] then 18 else 0; Running(s0, t, target, p.(eip := s0.eip + target))
  {
    hide Step.Step, Code8, CODE, BytesAt, Start, Real16, Others, Reg16;
    Fetch(s0, s, 16, p, 0);
    Fetch(s0, s, 16, p, 1);
    MoreCodeBytes();
    StepJump(s, env, JNE);
    t := Step.Step(s, env).value;
    InStart(s0);
    WrapSmall(s0.eip + 18);
    WrapSmall(s0.eip);
    Goes(s0, s, t, 16, p, if s.eflags[ZERO] then 18 else 0);
  }

  lemma StepsBx(s0: State, s: State, env: Env, p: Point, k: nat) returns (t: State)
    requires Running(s0, s, k, p) && (k == 20 || k == 21)
    ensures Step.Step(s, env) == Ok(t)
        && Running(s0, t, k + 1, p.(eip := s0.eip + k + 1, bx := Wrap16(p.bx as int - 1)))
  {
    hide Step.Step, Code8, CODE, BytesAt, Start, Updates, Behind, Real16, Others, Reg16, Wrap16;
    Fetch(s0, s, k, p, 0);
    MoreCodeBytes();
    StepIncDec(s, env, EBX, true);
    t := Step.Step(s, env).value;
    Sets(s0, s, t, k, p, 1, EBX, p.bx as int - 1);
  }

  // ----- The subroutine .3 -----

  /** An address range that a two-byte write at `a` stays clear of. */
  predicate ClearOf(a: int, lo: int, n: int) { a + 2 <= lo || lo + n <= a }

  lemma CodeSurvives(m: Memory, a: u32, v: int, e: nat)
    requires BytesAt(m, e, CODE) && ClearOf(a, e, 23) && a + 2 <= Span(m)
    ensures BytesAt(Write16(m, a, v), e, CODE) && |Write16(m, a, v)| == |m|
  {
    hide CODE, ByteOf;
    CodeLength();
  }

  lemma WordSurvives(m: Memory, a: u32, v: int, b: u32)
    requires a + 2 <= Span(m) && b + 2 <= Span(m) && ClearOf(a, b, 2)
    ensures Read16(Write16(m, a, v), b) == Read16(m, b)
  {
    hide ByteOf, Bytes16;
  }

  lemma StoresCell(s0: State, s: State, env: Env, p: Point) returns (t: State)
    requires Running(s0, s, 18, p)
    requires CellAt(s0, p.bx) + 2 <= Span(p.mem) && ClearOf(CellAt(s0, p.bx), Entry(s0), 23)
    ensures Step.Step(s, env) == Ok(t)
    ensures Running(s0, t, 20, p.(eip := s0.eip + 20, mem := Write16(p.mem, CellAt(s0, p.bx), p.ax)))
  {
    hide Step.Step, Code8, CODE, BytesAt, Start, Real16, Write16;
    Fetch(s0, s, 18, p, 0);
    Fetch(s0, s, 18, p, 1);
    MoreCodeBytes();
    StepStoreAx(s, env);
    t := Step.Step(s, env).value;
    InStart(s0);
    WrapSmall(s0.eip + 20);
    CodeSurvives(p.mem, CellAt(s0, p.bx), p.ax, Entry(s0));
  }

  lemma Returns(s0: State, s: State, env: Env, p: Point) returns (t: State)
    requires Running(s0, s, 22, p)
    ensures Step.Step(s, env) == Ok(t)
    ensures At(s0, t, p.(eip := Read16(p.mem, SlotOf(s0, p.esp)), esp := Wrap32(p.esp + 2)))
  {
    hide Step.Step, Code8, CODE, BytesAt, Read16, Wrap32;
    Fetch(s0, s, 22, p, 0);
    MoreCodeBytes();
    StepRet(s, env);
    t := Step.Step(s, env).value;
  }

  /** The stack has room for one more word, clear of the code. */
  ghost predicate StackClear(s0: State, esp: u32)
  {
    var a := SlotOf(s0, esp);
    2 <= a && a + 2 <= Span(s0.mem) && ClearOf(a as int - 2, Entry(s0), 23)
  }

  /** The cell at BX is on the bus, clear of the code, the return address and the word below it. */
  ghost predicate CellClear(s0: State, bx: u16, esp: u32)
  {
    var (a, sp) := (CellAt(s0, bx), SlotOf(s0, esp));
    a + 2 <= Span(s0.mem) && ClearOf(a, Entry(s0), 23) && ClearOf(a, sp as int - 2, 2) && ClearOf(a, sp, 2)
  }

  lemma SlotBelow(s0: State, esp: u32)
    requires StackClear(s0, esp)
    ensures SlotOf(s0, Wrap32(esp as int - 2)) == SlotOf(s0, esp) - 2
  {
    WrapTwice(esp as int - 2, s0.segs[SS].base);
    WrapTwice(s0.segs[SS].base + esp, -2);
    WrapSmall(SlotOf(s0, esp) - 2);
  }

  function Pushed(s0: State, p: Point): Point
    requires s0.eip + 23 <= TWO16
  {
    var esp := Wrap32(p.esp as int - 2);
    p.(eip := s0.eip + 18, esp := esp, mem := Write16(p.mem, SlotOf(s0, esp), s0.eip + 14))
  }

  lemma CallsShow(s0: State, s: State, env: Env, p: Point) returns (t: State)
    requires Running(s0, s, 11, p) && StackClear(s0, p.esp)
    ensures Step.Step(s, env) == Ok(t) && Running(s0, t, 18, Pushed(s0, p))
  {
    hide Step.Step, Code8, Code16, CODE, BytesAt, Real16, Write16;
    Fetch(s0, s, 11, p, 0);
    Fetch(s0, s, 11, p, 1);
    MoreCodeBytes();
    InStart(s0);
    WrapSmall(s0.eip + 18);
    WrapSmall(s0.eip + 14);
    StepCall16(s, env, s0.eip + 18);
    t := Step.Step(s, env).value;
    SlotBelow(s0, p.esp);
    CodeSurvives(p.mem, SlotOf(s0, Wrap32(p.esp as int - 2)), s0.eip + 14, Entry(s0));
    PushedIs(s0, s, t, p);
  }

  lemma PushedIs(s0: State, s: State, t: State, p: Point)
    requires Running(s0, s, 11, p) && t == Push(Behind(s, 3), s0.eip + 14).(eip := s0.eip + 18) && s0.eip + 23 <= TWO16
    requires BytesAt(Pushed(s0, p).mem, Entry(s0), CODE)
    ensures Running(s0, t, 18, Pushed(s0, p))
  {
    hide CODE, BytesAt, Wrap32, Low16;
    var b := Behind(s, 3);
    assert b.segs == s0.segs && b.regs == s.regs && b.mem == p.mem && StackWidth(b) == 2;
    assert t.regs == s.regs[ESP := Wrap32(p.esp as int - 2)] && t.mem == Pushed(s0, p).mem;
  }

  function ShownPoint(s0: State, p: Point): Point
  {
    var mem := Write16(p.mem, CellAt(s0, p.bx), p.ax);
    p.(eip := Read16(mem, SlotOf(s0, p.esp)), bx := Wrap16(p.bx as int - 2), esp := Wrap32(p.esp + 2), mem := mem)
  }

  lemma TwoSteps(s: State, t: State, u: State, env: Env)
    requires Step.Step(s, env) == Ok(t) && Reaches(t, u, env)
    ensures Reaches(s, u, env)
  {
    hide Step.Step, Steps;
    OneStep(s, t, env);
    ReachesCompose(s, t, u, env);
  }

  lemma ReachesSelf(s: State, env: Env)
    ensures Reaches(s, s, env)
  {
    hide Step.Step;
    assert Steps(s, s, env, 0);
  }

  /** The subroutine stores AX at BX, steps BX down and returns. */
  lemma ShowsCell(s0: State, s: State, env: Env, p: Point) returns (t: State)
    requires Running(s0, s, 18, p)
    requires CellAt(s0, p.bx) + 2 <= Span(p.mem) && ClearOf(CellAt(s0, p.bx), Entry(s0), 23)
    ensures Reaches(s, t, env) && At(s0, t, ShownPoint(s0, p))
  {
    hide Step.Step, Reaches, Running, At, Start, Write16, Read16, CellAt, SlotOf, Entry, Wrap32, CODE;
    RunningIn(s0, s, 18, p);
    var p1 := p.(eip := s0.eip + 20, mem := Write16(p.mem, CellAt(s0, p.bx), p.ax));
    var s1 := StoresCell(s0, s, env, p);
    var s2 := StepsBx(s0, s1, env, p1, 20);
    var p2 := p1.(eip := s0.eip + 21, bx := Wrap16(p.bx as int - 1));
    var s3 := StepsBx(s0, s2, env, p2, 21);
    var p3 := p2.(eip := s0.eip + 22, bx := Wrap16(p.bx as int - 2));
    DownTwice(p.bx);
    t := Returns(s0, s3, env, p3);
    ReachesSelf(t, env);
    TwoSteps(s3, t, t, env);
    TwoSteps(s2, s3, t, env);
    TwoSteps(s1, s2, t, env);
    TwoSteps(s, s1, t, env);
  }

  lemma RunningIn(s0: State, s: State, k: nat, p: Point)
    requires Running(s0, s, k, p)
    ensures s0.eip + 23 <= TWO16 && p.eip == s0.eip + k && Entry(s0) + 23 <= Span(s0.mem) && |p.mem| == |s0.mem|
  {
  }

  lemma DownTwice(bx: u16)
    ensures Wrap16(Wrap16(bx as int - 1) as int - 1) == Wrap16(bx as int - 2)
  {
  }

  // ----- Division by subtraction -----

  lemma {:induction false} Divides(s0: State, s: State, env: Env, p: Point) returns (t: State)
    requires Running(s0, s, 2, p) && p.cx + p.ax / 10 + 1 < TWO16
    ensures Reaches(s, t, env)
    ensures Running(s0, t, 8, p.(eip := s0.eip + 8, ax := Wrap16(p.ax % 10 - 10), cx := p.cx + p.ax / 10 + 1))
    decreases p.ax
  {
    hide Step.Step, Reaches, Running, Wrap16;
    RunningIn(s0, s, 2, p);
    var s1 := CountsUp(s0, s, env, p);
    Short(p.cx + 1);
    var p1 := p.(eip := s0.eip + 3, cx := p.cx + 1);
    var s2 := SubtractsTen(s0, s1, env, p1);
    var p2 := p1.(eip := s0.eip + 6, ax := Wrap16(p.ax as int - 10));
    var s3 := JumpsBack(s0, s2, env, p2);
    if p.ax < 10 {
      t := s3;
      ReachesSelf(t, env);
    } else {
      Short(p.ax - 10);
      t := Divides(s0, s3, env, p2.(eip := s0.eip + 2));
    }
    TwoSteps(s2, s3, t, env);
    TwoSteps(s1, s2, t, env);
    TwoSteps(s, s1, t, env);
  }

  // ----- One digit -----

  /** Memory once the inner call has left its return address and the cell has been stored. */
  function WithCell(s0: State, mem: Memory, bx: u16, esp: u32, cell: int): (r: Memory)
    requires s0.eip + 23 <= TWO16
    ensures |r| == |mem|
  {
    Write16(Write16(mem, SlotOf(s0, Wrap32(esp as int - 2)), s0.eip + 14), CellAt(s0, bx), cell)
  }

  function DigitDone(s0: State, p: Point): Point
    requires s0.eip + 23 <= TWO16
  {
    var q := p.ax / 10;
    Point(s0.eip + (if q == 0 then 18 else 0), q, Wrap16(p.bx as int - 2), ZERO_CELL + p.ax % 10, p.esp,
          WithCell(s0, p.mem, p.bx, p.esp, ZERO_CELL + p.ax % 10))
  }

  lemma CellSum(n: u16)
    ensures Wrap16(Wrap16(n % 10 - 10) + ZERO_CELL + 10) == ZERO_CELL + n % 10
    ensures n / 10 + 1 < TWO16 && Wrap16((n / 10 + 1) as int - 1) == n / 10
  {
  }

  /** From the start of the loop to the call: the remainder has become a cell and the quotient, one too high, is in
      CX. */
  lemma MakesCell(s0: State, s: State, env: Env, p: Point) returns (t: State)
    requires Running(s0, s, 0, p)
    ensures Reaches(s, t, env)
    ensures Running(s0, t, 11, p.(eip := s0.eip + 11, ax := ZERO_CELL + p.ax % 10, cx := p.ax / 10 + 1))
  {
    hide Step.Step, Reaches, Running, Wrap16;
    RunningIn(s0, s, 0, p);
    CellSum(p.ax);
    var s1 := ClearsCx(s0, s, env, p);
    var p1 := p.(eip := s0.eip + 2, cx := 0);
    var s2 := Divides(s0, s1, env, p1);
    var p2 := p1.(eip := s0.eip + 8, ax := Wrap16(p.ax % 10 - 10), cx := p.ax / 10 + 1);
    t := AddsCell(s0, s2, env, p2);
    ReachesSelf(t, env);
    TwoSteps(s2, t, t, env);
    ReachesCompose(s1, s2, t, env);
    TwoSteps(s, s1, t, env);
  }

  /** The inner call comes back to the instruction behind it. */
  lemma ShowsAndReturns(s0: State, s: State, env: Env, p: Point) returns (t: State)
    requires Running(s0, s, 11, p) && StackClear(s0, p.esp) && CellClear(s0, p.bx, p.esp)
    ensures Reaches(s, t, env)
    ensures Running(s0, t, 14, p.(eip := s0.eip + 14, bx := Wrap16(p.bx as int - 2),
        mem := WithCell(s0, p.mem, p.bx, p.esp, p.ax)))
  {
    hide Step.Step, Reaches, Running, At, Write16, Read16, CellAt, SlotOf, Entry, CODE;
    RunningIn(s0, s, 11, p);
    var s1 := CallsShow(s0, s, env, p);
    var p1 := Pushed(s0, p);
    t := ShowsCell(s0, s1, env, p1);
    TwoSteps(s, s1, t, env);
    ComesBack(s0, s1, t, p);
  }

  lemma ComesBack(s0: State, s: State, t: State, p: Point)
    requires s0.eip + 23 <= TWO16 && StackClear(s0, p.esp) && CellClear(s0, p.bx, p.esp) && |p.mem| == |s0.mem|
    requires Running(s0, s, 18, Pushed(s0, p)) && At(s0, t, ShownPoint(s0, Pushed(s0, p)))
    ensures Running(s0, t, 14, p.(eip := s0.eip + 14, bx := Wrap16(p.bx as int - 2),
        mem := WithCell(s0, p.mem, p.bx, p.esp, p.ax)))
  {
    hide At, Write16, Read16, CellAt, Entry, CODE, BytesAt, SlotOf;
    var m := Pushed(s0, p).mem;
    SlotBelow(s0, p.esp);
    var slot := SlotOf(s0, Wrap32(p.esp as int - 2));
    CodeSurvives(m, CellAt(s0, p.bx), p.ax, Entry(s0));
    WordSurvives(m, CellAt(s0, p.bx), p.ax, slot);
    ReadBack(p.mem, slot, s0.eip + 14);
    Short(s0.eip + 14);
    WrapTwice(p.esp as int - 2, 2);
    WrapSmall(p.esp);
  }

  lemma OneDigit(s0: State, s: State, env: Env, p: Point) returns (t: State)
    requires Running(s0, s, 0, p) && StackClear(s0, p.esp) && CellClear(s0, p.bx, p.esp) && s0.eip + 23 <= TWO16
    ensures Reaches(s, t, env)
    ensures Running(s0, t, if p.ax < 10 then 18 else 0, DigitDone(s0, p))
  {
    hide Step.Step, Reaches, Running, Write16, Wrap16, StackClear, CellClear, WithCell;
    var cell: u16 := ZERO_CELL + p.ax % 10;
    CellSum(p.ax);
    var s1 := MakesCell(s0, s, env, p);
    var p1 := p.(eip := s0.eip + 11, ax := cell, cx := p.ax / 10 + 1);
    var s2 := ShowsAndReturns(s0, s1, env, p1);
    var p2 := p1.(eip := s0.eip + 14, bx := Wrap16(p.bx as int - 2), mem := WithCell(s0, p.mem, p.bx, p.esp, cell));
    var s3 := Exchanges(s0, s2, env, p2);
    var p3 := p2.(eip := s0.eip + 15, ax := p.ax / 10 + 1, cx := cell);
    var s4 := CountsDown(s0, s3, env, p3);
    var p4 := p3.(eip := s0.eip + 16, ax := p.ax / 10);
    t := JumpsToStart(s0, s4, env, p4);
    ReachesSelf(t, env);
    TwoSteps(s4, t, t, env);
    TwoSteps(s3, s4, t, env);
    TwoSteps(s2, s3, t, env);
    ReachesCompose(s1, s2, t, env);
    ReachesCompose(s, s1, t, env);
  }

  // ----- The whole number -----

  /** The cells from BX down to the one behind the last digit are clear. */
  ghost predicate AllClear(s0: State, n: u16, bx: u16, esp: u32)
  {
    && bx >= 2 && CellClear(s0, bx, esp)
    && if n < 10 then CellClear(s0, bx - 2, esp) else AllClear(s0, n / 10, bx - 2, esp)
  }

  function Drawn(s0: State, mem: Memory, n: u16, bx: u16, esp: u32): (r: Memory)
    requires s0.eip + 23 <= TWO16 && bx >= 2 * Digits(n)
    ensures |r| == |mem|
    decreases n
  {
    var m := WithCell(s0, mem, bx, esp, ZERO_CELL + n % 10);
    if n < 10 then Write16(m, CellAt(s0, bx - 2), 0) else Drawn(s0, m, n / 10, bx - 2, esp)
  }

  /** Where the routine ends: back at the caller, with AX zero and BX below the last cell. */
  function Finished(s0: State, p: Point, last: u16): Point
    requires s0.eip + 23 <= TWO16 && p.bx >= 2 * Digits(p.ax)
  {
    var mem := Drawn(s0, p.mem, p.ax, p.bx, p.esp);
    Point(Read16(mem, SlotOf(s0, p.esp)), 0, Wrap16(p.bx - 2 * Digits(p.ax) - 2), last, Wrap32(p.esp + 2), mem)
  }

  function LeadingCell(n: u16): u16
    decreases n
  {
    if n < 10 then ZERO_CELL + n else LeadingCell(n / 10)
  }

  lemma ClearGives(s0: State, n: u16, bx: u16, esp: u32)
    requires AllClear(s0, n, bx, esp)
    ensures bx >= 2 * Digits(n)
    decreases n
  {
    hide CellClear;
    if n >= 10 { ClearGives(s0, n / 10, bx - 2, esp); }
  }

  lemma {:induction false} Prints(s0: State, s: State, env: Env, p: Point) returns (t: State)
    requires Running(s0, s, 0, p) && StackClear(s0, p.esp) && AllClear(s0, p.ax, p.bx, p.esp)
    requires s0.eip + 23 <= TWO16 && p.bx >= 2 * Digits(p.ax)
    ensures Reaches(s, t, env) && At(s0, t, Finished(s0, p, LeadingCell(p.ax)))
    decreases p.ax
  {
    hide Step.Step, Reaches, Running, At, Write16, Read16, StackClear, CellClear, WithCell, CellAt, SlotOf;
    var s1 := OneDigit(s0, s, env, p);
    var p1 := DigitDone(s0, p);
    Short(p.bx - 2);
    if p.ax < 10 {
      RunningIn(s0, s1, 18, p1);
      CellOnBus(s0, p1.bx, p1.esp);
      t := ShowsCell(s0, s1, env, p1);
    } else {
      t := Prints(s0, s1, env, p1);
    }
    ReachesCompose(s, s1, t, env);
  }

  lemma CellOnBus(s0: State, bx: u16, esp: u32)
    requires CellClear(s0, bx, esp)
    ensures CellAt(s0, bx) + 2 <= Span(s0.mem) && ClearOf(CellAt(s0, bx), Entry(s0), 23)
  {
  }

  // ----- What is in memory afterwards -----

  /** Two ranges of addresses have nothing in common. */
  predicate Distinct(a: int, b: int, c: int, d: int) { b <= c || d <= a }

  /** The cells for `n`, from the one at BX down, do not wrap and are clear of the stack words in use. */
  ghost predicate CellRoom(s0: State, size: nat, n: nat, bx: int, esp: u32)
  {
    var (base, sp) := (s0.segs[DS].base, SlotOf(s0, esp));
    && 2 * Digits(n) <= bx < TWO16 && base + bx + 2 <= size && 2 <= sp && sp + 2 <= size
    && Distinct(base + bx - 2 * Digits(n), base + bx + 2, sp - 2, sp + 2)
  }

  ghost predicate DrawnFrame(s0: State, m: Memory, r: Memory, n: nat, bx: int, esp: u32)
  {
    var (a, sp) := (s0.segs[DS].base + bx, SlotOf(s0, esp));
    |r| == |m| && forall i :: 0 <= i < |m| && !(a - 2 * Digits(n) <= i < a + 2) && !(sp - 2 <= i < sp) ==> r[i] == m[i]
  }

  lemma CellAddress(s0: State, size: nat, n: nat, bx: u16, esp: u32)
    requires CellRoom(s0, size, n, bx, esp) && size <= BUS32
    ensures CellAt(s0, bx) == s0.segs[DS].base + bx && CellAt(s0, bx - 2) == s0.segs[DS].base + bx - 2
  {
    WrapSmall(s0.segs[DS].base + bx);
    WrapSmall(s0.segs[DS].base + bx - 2);
  }

  lemma TwoWrites(m: Memory, a: u32, v: int, b: u32, w: int)
    requires a + 2 <= Span(m) && b + 2 <= Span(m) && ClearOf(a, b, 2)
    ensures Read16(Write16(Write16(m, a, v), b, w), b) == Wrap16(w)
    ensures forall i :: 0 <= i < |m| && !(a <= i < a + 2) && !(b <= i < b + 2) ==>
        Write16(Write16(m, a, v), b, w)[i] == m[i]
  {
    ReadBack(Write16(m, a, v), b, w);
    hide ByteOf, Bytes16;
  }

  /** One digit's writes: its cell, and the word below the top of the stack. */
  lemma WithCellIs(s0: State, m: Memory, n: nat, bx: u16, esp: u32, cell: u16)
    requires s0.eip + 23 <= TWO16 && CellRoom(s0, Span(m), n, bx, esp) && |m| == |s0.mem| && StackClear(s0, esp)
    ensures var (r, a, sp) := (WithCell(s0, m, bx, esp, cell), s0.segs[DS].base + bx, SlotOf(s0, esp));
            && |r| == |m| && Read16(r, a) == cell
            && forall i :: 0 <= i < |m| && !(a <= i < a + 2) && !(sp - 2 <= i < sp) ==> r[i] == m[i]
  {
    hide Write16, Read16, CellAt, SlotOf, Wrap32;
    CellAddress(s0, Span(m), n, bx, esp);
    SlotBelow(s0, esp);
    TwoWrites(m, SlotOf(s0, Wrap32(esp as int - 2)), s0.eip + 14, CellAt(s0, bx), cell);
    Short(cell);
  }

  lemma WordUnchanged(m: Memory, r: Memory, a: u32)
    requires a + 2 <= Span(m) && |r| == |m| && r[a] == m[a] && r[a + 1] == m[a + 1]
    ensures Read16(r, a) == Read16(m, a)
  {
  }

  /** The cells of a finished number and the blank behind them. */
  ghost predicate Cells(s0: State, r: Memory, n: nat, bx: int)
    requires 0 <= s0.segs[DS].base + bx - 2 * Digits(n) && s0.segs[DS].base + bx < TWO32
  {
    var a := s0.segs[DS].base + bx;
    && (forall k :: 0 <= k < Digits(n) ==> Read16(r, a - 2 * k) == ZERO_CELL + Digit(n, k))
    && Read16(r, a - 2 * Digits(n)) == 0
  }

  /** The last write of all: a blank behind the last digit. */
  lemma BlankIs(m: Memory, a: u32)
    requires a + 2 <= Span(m)
    ensures Read16(Write16(m, a, 0), a) == 0
    ensures forall i :: 0 <= i < |m| && !(a <= i < a + 2) ==> Write16(m, a, 0)[i] == m[i]
  {
    ReadBack(m, a, 0);
    hide ByteOf, Bytes16;
  }

  /** The cells of the quotient are the number's cells but for the first. */
  lemma CellsExtend(s0: State, r: Memory, n: nat, bx: int)
    requires n >= 10 && 2 * Digits(n) <= bx && s0.segs[DS].base + bx < TWO32
    requires Read16(r, s0.segs[DS].base + bx) == ZERO_CELL + n % 10 && Cells(s0, r, n / 10, bx - 2)
    ensures Cells(s0, r, n, bx)
  {
    hide Read16;
    var a := s0.segs[DS].base + bx;
    forall k | 0 <= k < Digits(n) ensures Read16(r, a - 2 * k) == ZERO_CELL + Digit(n, k) {
      if k > 0 {
        assert a - 2 * k == (a - 2) - 2 * (k - 1);
        assert Read16(r, (a - 2) - 2 * (k - 1)) == ZERO_CELL + Digit(n / 10, k - 1);
      }
    }
    assert a - 2 * Digits(n) == (a - 2) - 2 * Digits(n / 10);
  }

  lemma {:induction false} DrawnIs(s0: State, m: Memory, n: u16, bx: u16, esp: u32)
    requires s0.eip + 23 <= TWO16 && CellRoom(s0, Span(m), n, bx, esp) && |m| == |s0.mem| && StackClear(s0, esp)
    ensures DrawnFrame(s0, m, Drawn(s0, m, n, bx, esp), n, bx, esp)
    ensures Cells(s0, Drawn(s0, m, n, bx, esp), n, bx)
    decreases n
  {
    hide Write16, Read16, CellAt, SlotOf, WithCell, StackClear;
    var (a, mid, r) := (s0.segs[DS].base + bx, WithCell(s0, m, bx, esp, ZERO_CELL + n % 10), Drawn(s0, m, n, bx, esp));
    WithCellIs(s0, m, n, bx, esp, ZERO_CELL + n % 10);
    CellAddress(s0, Span(m), n, bx, esp);
    if n < 10 {
      BlankIs(mid, CellAt(s0, bx - 2));
      WordUnchanged(mid, r, a);
    } else {
      DrawnIs(s0, mid, n / 10, bx - 2, esp);
      WordUnchanged(mid, r, a);
      CellsExtend(s0, r, n, bx);
    }
  }

  // ----- The main result -----

  lemma {:induction false} RoomIsClear(s0: State, n: u16, bx: u16, esp: u32)
    requires CellRoom(s0, Span(s0.mem), n, bx, esp)
    requires var base := s0.segs[DS].base; Distinct(base + bx - 2 * Digits(n), base + bx + 2, Entry(s0), Entry(s0) + 23)
    ensures AllClear(s0, n, bx, esp)
    decreases n
  {
    CellAddress(s0, Span(s0.mem), n, bx, esp);
    if n >= 10 { RoomIsClear(s0, n / 10, bx - 2, esp); }
  }

  /** The routine has printed `n`, which AX held, and returned. */
  ghost predicate Printed(s: State, t: State)
    requires CellRoom(s, Span(s.mem), Reg16(s, EAX), Reg16(s, EBX), s.regs[ESP])
  {
    var (n, bx) := (Reg16(s, EAX), Reg16(s, EBX));
    && Cells(s, t.mem, n, bx) && DrawnFrame(s, s.mem, t.mem, n, bx, s.regs[ESP]) && Others(s, t)
    && t.eip == Read16(s.mem, SlotOf(s, s.regs[ESP])) && t.regs[ESP] == Wrap32(s.regs[ESP] as int + 2)
    && Reg16(t, EAX) == 0 && Reg16(t, EBX) == Wrap16(bx - 2 * Digits(n) - 2)
  }

  /** The routine's code is at CS:EIP, and the code, the two stack words in use and the cells for AX lie apart on the
      bus. */
  ghost predicate Printable(s: State)
  {
    var (base, n, bx, sp) := (s.segs[DS].base, Reg16(s, EAX), Reg16(s, EBX), SlotOf(s, s.regs[ESP]));
    && Start(s) && BytesAt(s.mem, Entry(s), CODE) && CellRoom(s, Span(s.mem), n, bx, s.regs[ESP])
    && Distinct(base + bx - 2 * Digits(n), base + bx + 2, Entry(s), Entry(s) + 23)
    && Distinct(sp - 2, sp, Entry(s), Entry(s) + 23)
  }

  /** For every value of AX, from every such state, the run terminates with the number's decimal digits in the cells
      from BX down, a blank behind them, nothing else changed but the word below the stack, and control back at the
      caller. */
  lemma UpdateScorePrints(s: State, env: Env)
    requires Printable(s)
    ensures exists t :: Reaches(s, t, env) && Printed(s, t)
  {
    hide Reaches, AllClear, Drawn, Cells, Read16, CODE, BytesAt, SlotOf;
    var p := Point(s.eip, Reg16(s, EAX), Reg16(s, EBX), Reg16(s, ECX), s.regs[ESP], s.mem);
    RoomIsClear(s, p.ax, p.bx, p.esp);
    var t := Prints(s, s, env, p);
    DrawnIs(s, s.mem, p.ax, p.bx, p.esp);
    WordUnchanged(s.mem, t.mem, SlotOf(s, p.esp));
    assert Printed(s, t);
  }
}
