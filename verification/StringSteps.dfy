/** Whole string instructions, with and without REP and behind any prefixes, by the bytes at the segments' bases plus
    ESI and EDI. */
module StringSteps {
  import opened Words
  import opened I386
  import opened Machine
  import opened Step
  import opened RunInvariants
  import opened Disassembler
  import opened Instructions
  import opened FlagLaws
  import opened StringLaws
  import opened Places
  import opened Texts
  import opened MoveSteps
  import opened StackSteps
  import Departures

  // ----- Elements as places -----

  /** The source element is at ESI in the segment of the last prefix, or DS; the destination at EDI in ES. */
  function SourceCell(s: State, ps: seq<u8>, n: nat): Place { Cell(s, LastSegment(ps, DS), s.regs[ESI], n) }
  function DestCell(s: State, n: nat): Place { Cell(s, ES, s.regs[EDI], n) }

  /** How far an index moves: down when DF is set. */
  function Stride(s: State, n: nat): int { if s.eflags[DIRECTION] then -(n as int) else n }

  function Advance(s: State, id: RegIndex, d: int): State { Assigned(s, Whole(id), s.regs[id] + d) }

  function OperandSize(n: nat): Size { if n == 1 then Sz8 else if n == 2 then Sz16 else Sz32 }

  lemma ElementRead(s: State, g: SegIndex, offset: u32, n: nat)
    requires ElementSize(n)
    ensures ReadN(s.mem, Linear(s, g, offset), n) == Contents(s, Cell(s, g, offset, n))
  {
    hide Linear, Read8, Read16, Read32, Contents;
    ReadsPlace(s, Decoded(DMem, offset, OperandSize(n), g));
  }

  lemma ElementWritten(s: State, g: SegIndex, offset: u32, v: int, n: nat)
    requires ElementSize(n)
    ensures s.(mem := WriteN(s.mem, Linear(s, g, offset), v, n)) == Assigned(s, Cell(s, g, offset, n), v)
  {
    hide Linear, Write8, Write16, Write32, Assigned;
    WritesPlace(s, Decoded(DMem, offset, OperandSize(n), g), v);
  }

  /** What one element of each operation does to a state `e` that executes for `s`. */
  function MovedElement(s: State, ps: seq<u8>, e: State, n: nat): State
    requires ElementSize(n) && e.mem == s.mem
  {
    var t := Assigned(e, DestCell(s, n), Contents(s, SourceCell(s, ps, n)));
    Advance(Advance(t, ESI, Stride(s, n)), EDI, Stride(s, n))
  }

  function StoredElement(s: State, e: State, n: nat): State
    requires ElementSize(n) && e.mem == s.mem
  {
    Advance(Assigned(e, DestCell(s, n), s.regs[EAX]), EDI, Stride(s, n))
  }

  function LoadedElement(s: State, ps: seq<u8>, e: State, n: nat): State
    requires ElementSize(n) && e.mem == s.mem
  {
    Advance(Assigned(e, Register(EAX, n), Contents(s, SourceCell(s, ps, n))), ESI, Stride(s, n))
  }

  lemma AdvancedIs(s: State, id: RegIndex, n: nat)
    ensures Advanced(s, id, n) == (s.regs[id] + Stride(s, n)) % TWO32
  {
  }

  lemma MovsIs(s: State, ps: seq<u8>, e: State, n: nat)
    requires ElementSize(n) && e.mem == s.mem && e.regs == s.regs && e.segs == s.segs && e.eflags == s.eflags
    requires e.sgmtOverride == LastSegment(ps, DS)
    ensures DoMovs(e, n) == MovedElement(s, ps, e, n)
  {
    hide Linear, ReadN, WriteN, Advanced, LastSegment, Contents, Assigned, Advance;
    ElementRead(e, LastSegment(ps, DS), s.regs[ESI], n);
    SamePlaces(e, s, SourceCell(s, ps, n), 0);
    ElementWritten(e, ES, s.regs[EDI], Contents(s, SourceCell(s, ps, n)), n);
    AdvancedIs(e, ESI, n);
    AdvancedIs(e, EDI, n);
    var t := Assigned(e, DestCell(s, n), Contents(s, SourceCell(s, ps, n)));
    AdvanceIs(t, ESI, Stride(s, n));
    AdvanceIs(Advance(t, ESI, Stride(s, n)), EDI, Stride(s, n));
  }

  lemma AdvanceIs(s: State, id: RegIndex, d: int)
    ensures Advance(s, id, d) == s.(regs := s.regs[id := (s.regs[id] + d) % TWO32])
  {
  }

  lemma StosIs(s: State, e: State, n: nat)
    requires ElementSize(n) && e.mem == s.mem && e.regs == s.regs && e.segs == s.segs && e.eflags == s.eflags
    ensures DoStos(e, n) == StoredElement(s, e, n)
  {
    hide Linear, WriteN, Advanced, Digits;
    ElementWritten(e, ES, s.regs[EDI], s.regs[EAX], n);
    AdvancedIs(e, EDI, n);
  }

  lemma LodsIs(s: State, ps: seq<u8>, e: State, n: nat)
    requires ElementSize(n) && e.mem == s.mem && e.regs == s.regs && e.segs == s.segs && e.eflags == s.eflags
    requires e.sgmtOverride == LastSegment(ps, DS)
    ensures DoLods(e, n) == LoadedElement(s, ps, e, n)
  {
    hide Linear, ReadN, LastSegment, Contents, Assigned, SetReg8, SetReg16, SetReg32;
    ElementRead(e, LastSegment(ps, DS), s.regs[ESI], n);
    SamePlaces(e, s, SourceCell(s, ps, n), 0);
    var v := Contents(s, SourceCell(s, ps, n));
    var d := Decoded(DReg, EAX, OperandSize(n), 0);
    WritesPlace(e, d, v);
    var t := Assigned(e, Register(EAX, n), v);
    assert WriteDest(e, d, v) == Ok(t);
    KeepsEsi(e, n, v);
    AdvancedIs(t, ESI, n);
    EsiAssigned(t, t.regs[ESI] + Stride(t, n));
  }

  lemma KeepsEsi(e: State, n: nat, v: int)
    ensures Assigned(e, Register(EAX, n), v).regs[ESI] == e.regs[ESI]
    ensures Assigned(e, Register(EAX, n), v).eflags == e.eflags
  {
  }

  lemma EsiAssigned(t: State, v: int)
    ensures Assigned(t, Whole(ESI), v) == t.(regs := t.regs[ESI := v % TWO32])
  {
  }

  // ----- Landing -----

  lemma ElementsLand(s: State, ps: seq<u8>, m: nat, n: nat)
    requires NothingPending(s) && ElementSize(n)
    ensures var (e, b) := (Executing(s, ps, m), Behind(s, |ps| + 1 + m));
            && Finished(s, Ok(MovedElement(s, ps, e, n))) == Ok(MovedElement(s, ps, b, n))
            && Finished(s, Ok(StoredElement(s, e, n))) == Ok(StoredElement(s, b, n))
            && Finished(s, Ok(LoadedElement(s, ps, e, n))) == Ok(LoadedElement(s, ps, b, n))
  {
    hide Executing, Behind, Finished;
    ExecutingIs(s, ps, m);
    var (e, b) := (Executing(s, ps, m), Behind(s, |ps| + 1 + m));
    MovedChange(s, ps, e, b, n);
    StoredChange(s, e, b, n);
    LoadedChange(s, ps, e, b, n);
    ChangeLands(s, ps, m, MovedElement(s, ps, e, n), MovedElement(s, ps, b, n));
    ChangeLands(s, ps, m, StoredElement(s, e, n), StoredElement(s, b, n));
    ChangeLands(s, ps, m, LoadedElement(s, ps, e, n), LoadedElement(s, ps, b, n));
  }

  /** Two states with the same registers, memory, flags, segments and EIP. */
  predicate Alike(e: State, b: State)
  {
    e.regs == b.regs && e.mem == b.mem && e.segs == b.segs && e.eflags == b.eflags && e.eip == b.eip
  }

  lemma AssignedChange(e: State, b: State, t: State, u: State, p: Place, v: int)
    requires Alike(e, b) && SameChange(e, t, b, u) && IsPlace(t.mem, p) && IsPlace(u.mem, p)
    ensures SameChange(e, Assigned(t, p, v), b, Assigned(u, p, v))
  {
    hide Digits;
  }

  lemma MovedChange(s: State, ps: seq<u8>, e: State, b: State, n: nat)
    requires ElementSize(n) && Alike(e, b) && e.mem == s.mem
    ensures SameChange(e, MovedElement(s, ps, e, n), b, MovedElement(s, ps, b, n))
  {
    hide Assigned, Contents, Stride;
    var v := Contents(s, SourceCell(s, ps, n));
    AssignedChange(e, b, e, b, DestCell(s, n), v);
    var (t, u) := (Assigned(e, DestCell(s, n), v), Assigned(b, DestCell(s, n), v));
    AssignedChange(e, b, t, u, Whole(ESI), t.regs[ESI] + Stride(s, n));
    var (t', u') := (Advance(t, ESI, Stride(s, n)), Advance(u, ESI, Stride(s, n)));
    AssignedChange(e, b, t', u', Whole(EDI), t'.regs[EDI] + Stride(s, n));
  }

  lemma StoredChange(s: State, e: State, b: State, n: nat)
    requires ElementSize(n) && Alike(e, b) && e.mem == s.mem
    ensures SameChange(e, StoredElement(s, e, n), b, StoredElement(s, b, n))
  {
    hide Assigned, Stride;
    var (t, u) := (Assigned(e, DestCell(s, n), s.regs[EAX]), Assigned(b, DestCell(s, n), s.regs[EAX]));
    AssignedChange(e, b, e, b, DestCell(s, n), s.regs[EAX]);
    AssignedChange(e, b, t, u, Whole(EDI), t.regs[EDI] + Stride(s, n));
  }

  lemma LoadedChange(s: State, ps: seq<u8>, e: State, b: State, n: nat)
    requires ElementSize(n) && Alike(e, b) && e.mem == s.mem
    ensures SameChange(e, LoadedElement(s, ps, e, n), b, LoadedElement(s, ps, b, n))
  {
    hide Assigned, Contents, Stride;
    var v := Contents(s, SourceCell(s, ps, n));
    var (t, u) := (Assigned(e, Register(EAX, n), v), Assigned(b, Register(EAX, n), v));
    AssignedChange(e, b, e, b, Register(EAX, n), v);
    AssignedChange(e, b, t, u, Whole(ESI), t.regs[ESI] + Stride(s, n));
  }

  // ----- Steps without REP -----

  function EntryOf(opcode: u8): Op
  {
    StringEntry(if opcode == 0xA4 || opcode == 0xA5 then MOVS else if opcode == 0xA6 then CMPS
                else if opcode == 0xAC || opcode == 0xAD then LODS else if opcode >= 0xAE then SCAS else STOS,
                if opcode % 2 == 0 then STR_SZ_8 else STR_SZ_1632)
  }

  predicate StringOpcode(opcode: u8) { 0xA4 <= opcode <= 0xA7 || 0xAA <= opcode <= 0xAF }

  lemma StringRow(opcode: u8)
    requires StringOpcode(opcode)
    ensures InstructionTable(opcode) == EntryOf(opcode) && PlainOpcode(opcode)
    ensures Fixup(EntryOf(opcode), 0) == Ok(EntryOf(opcode)) && !UsesModrm(EntryOf(opcode))
  {
  }

  /** The bytes of an element: one for an even opcode, else those of the operand size. */
  function ElementWidth(s: State, ps: seq<u8>, opcode: u8): nat
  {
    if opcode % 2 == 0 then 1 else if Wide(s, ps) then 4 else 2
  }

  lemma StringExecutes(s: State, ps: seq<u8>, opcode: u8, rest: seq<u8>, env: Env) returns (e: State)
    requires At(s, ps, opcode, rest) && StringOpcode(opcode)
    ensures Step.Step(s, env) == Finished(s, DoString(e, EntryOf(opcode).subType, EntryOf(opcode).flags))
    ensures e == Executing(s, ps, 0) && e.sgmtOverride == LastSegment(ps, DS)
    ensures StringSize(e, EntryOf(opcode).flags) == ElementWidth(s, ps, opcode)
  {
    hide CodeIs, Step.Step, Execute, InstructionTable, Finished, Fixup, PlainOpcode, Executing, LastSegment, DoString;
    StringRow(opcode);
    var i := StepPlain(s, ps, opcode, rest, env, EntryOf(opcode));
    RunString(i, env);
    e := i.s;
  }

  lemma RunString(i: Instruction, env: Env)
    requires i.inst.opType.OpString?
    ensures Execute(i, env) == DoString(i.s, i.inst.subType, i.inst.flags)
  {
    hide DoString;
  }

  /** MOVS, A4 and A5. */
  lemma StepMovs(s: State, ps: seq<u8>, opcode: u8, rest: seq<u8>, env: Env)
    requires At(s, ps, opcode, rest) && 0xA4 <= opcode <= 0xA5
    ensures Step.Step(s, env) == Ok(MovedElement(s, ps, Behind(s, |ps| + 1), ElementWidth(s, ps, opcode)))
  {
    hide CodeIs, Step.Step, Finished, Executing, LastSegment, Behind, DoMovs, DoStos, DoLods, DoCmps, DoScas;
    hide MovedElement, StoredElement, LoadedElement;
    var e := StringExecutes(s, ps, opcode, rest, env);
    ExecutingKeeps(s, ps, 0);
    MovsIs(s, ps, e, ElementWidth(s, ps, opcode));
    ElementsLand(s, ps, 0, ElementWidth(s, ps, opcode));
  }

  /** STOS, AA and AB, and A7. */
  lemma StepStos(s: State, ps: seq<u8>, opcode: u8, rest: seq<u8>, env: Env)
    requires At(s, ps, opcode, rest) && (0xAA <= opcode <= 0xAB || opcode == 0xA7)
    ensures Step.Step(s, env) == Ok(StoredElement(s, Behind(s, |ps| + 1), ElementWidth(s, ps, opcode)))
  {
    hide CodeIs, Step.Step, Finished, Executing, LastSegment, Behind, DoMovs, DoStos, DoLods, DoCmps, DoScas;
    hide MovedElement, StoredElement, LoadedElement;
    var e := StringExecutes(s, ps, opcode, rest, env);
    ExecutingKeeps(s, ps, 0);
    StosIs(s, e, ElementWidth(s, ps, opcode));
    ElementsLand(s, ps, 0, ElementWidth(s, ps, opcode));
  }

  /** LODS, AC and AD. */
  lemma StepLods(s: State, ps: seq<u8>, opcode: u8, rest: seq<u8>, env: Env)
    requires At(s, ps, opcode, rest) && 0xAC <= opcode <= 0xAD
    ensures Step.Step(s, env) == Ok(LoadedElement(s, ps, Behind(s, |ps| + 1), ElementWidth(s, ps, opcode)))
  {
    hide CodeIs, Step.Step, Finished, Executing, LastSegment, Behind, DoMovs, DoStos, DoLods, DoCmps, DoScas;
    hide MovedElement, StoredElement, LoadedElement;
    var e := StringExecutes(s, ps, opcode, rest, env);
    ExecutingKeeps(s, ps, 0);
    LodsIs(s, ps, e, ElementWidth(s, ps, opcode));
    ElementsLand(s, ps, 0, ElementWidth(s, ps, opcode));
  }

  /** CMPS compares the low bytes of the two elements. */
  function ComparedElement(s: State, ps: seq<u8>, e: State, n: nat): State
    requires ElementSize(n) && e.mem == s.mem
  {
    var zf := Contents(s, SourceCell(s, ps, n)) % TWO8 == Contents(s, DestCell(s, n)) % TWO8;
    Advance(Advance(e.(eflags := s.eflags[ZERO := zf]), ESI, Stride(s, n)), EDI, Stride(s, n))
  }

  /** SCASB compares the byte with all of EAX, and the wider forms leave ZF as it was. */
  function ScannedElement(s: State, e: State, n: nat): State
    requires ElementSize(n) && e.mem == s.mem
  {
    var f := if n == 1 then s.eflags[ZERO := Contents(s, DestCell(s, 1)) == s.regs[EAX]] else s.eflags;
    Advance(e.(eflags := f), EDI, Stride(s, n))
  }

  lemma CmpsIs(s: State, ps: seq<u8>, e: State, n: nat)
    requires ElementSize(n) && e.mem == s.mem && e.regs == s.regs && e.segs == s.segs && e.eflags == s.eflags
    requires e.sgmtOverride == LastSegment(ps, DS)
    ensures DoCmps(e, n) == ComparedElement(s, ps, e, n)
  {
    hide Linear, ReadN, Advanced, LastSegment, Contents, Advance, Wrap8, DoCmps, Stride;
    ElementRead(e, LastSegment(ps, DS), s.regs[ESI], n);
    ElementRead(e, ES, s.regs[EDI], n);
    SamePlaces(e, s, SourceCell(s, ps, n), 0);
    SamePlaces(e, s, DestCell(s, n), 0);
    AdvancedIs(e, ESI, n);
    AdvancedIs(e, EDI, n);
    var (x, y) := (Contents(s, SourceCell(s, ps, n)), Contents(s, DestCell(s, n)));
    ByteWrap(x);
    ByteWrap(y);
    CmpsFlags(e, n, x, y);
    SameStride(s, e, n);
    var t := e.(eflags := s.eflags[ZERO := Wrap8(x) == Wrap8(y)]);
    AdvanceIs(t, ESI, Stride(s, n));
    AdvanceIs(Advance(t, ESI, Stride(s, n)), EDI, Stride(s, n));
  }

  lemma SameStride(s: State, e: State, n: nat)
    requires s.eflags == e.eflags
    ensures Stride(s, n) == Stride(e, n)
  {
  }

  lemma CmpsFlags(e: State, n: nat, x: u32, y: u32)
    requires x == ReadN(e.mem, StringSource(e), n) && y == ReadN(e.mem, StringDest(e), n)
    ensures DoCmps(e, n) == e.(eflags := e.eflags[ZERO := Wrap8(x) == Wrap8(y)],
                               regs := e.regs[ESI := Advanced(e, ESI, n)][EDI := Advanced(e, EDI, n)])
  {
    hide ReadN, Advanced, StringSource, StringDest, Wrap8;
    Departures.SameLowByte(x, y);
  }

  lemma ByteWrap(x: int)
    ensures Wrap8(x) == x % TWO8
  {
  }

  lemma ScasIs(s: State, e: State, opcode: u8, n: nat)
    requires 0xAE <= opcode <= 0xAF && e.mem == s.mem && e.regs == s.regs && e.segs == s.segs && e.eflags == s.eflags
    requires ElementSize(n) && (opcode == 0xAE <==> n == 1)
    ensures DoScas(e, EntryOf(opcode).flags, n) == ScannedElement(s, e, n)
  {
    hide Linear, Advanced, Contents, ReadN, Advance;
    ElementRead(e, ES, s.regs[EDI], n);
    SamePlaces(e, s, DestCell(s, n), 0);
    AdvancedIs(e, EDI, n);
    var v := ReadN(e.mem, StringDest(e), n);
    var f := if n == 1 then s.eflags[ZERO := v == s.regs[EAX]] else s.eflags;
    ScasFlags(e, EntryOf(opcode).flags, n, v, f);
    AdvanceIs(e.(eflags := f), EDI, Stride(s, n));
  }

  lemma ScasFlags(e: State, flags: nat, n: nat, v: u32, f: Bits32)
    requires v == ReadN(e.mem, StringDest(e), n) && (if n == 1 then flags == STR_SZ_8 else flags == STR_SZ_1632)
    requires f == if n == 1 then e.eflags[ZERO := v == e.regs[EAX]] else e.eflags
    ensures DoScas(e, flags, n) == e.(eflags := f, regs := e.regs[EDI := Advanced(e, EDI, n)])
  {
    hide ReadN, Advanced, StringDest;
    Departures.SmallDifference(e.regs[EAX], v);
  }

  lemma ComparisonsLand(s: State, ps: seq<u8>, m: nat, n: nat)
    requires NothingPending(s) && ElementSize(n)
    ensures var (e, b) := (Executing(s, ps, m), Behind(s, |ps| + 1 + m));
            && Finished(s, Ok(ComparedElement(s, ps, e, n))) == Ok(ComparedElement(s, ps, b, n))
            && Finished(s, Ok(ScannedElement(s, e, n))) == Ok(ScannedElement(s, b, n))
  {
    hide Executing, Behind, Finished, Contents, Assigned, Stride, LastSegment;
    ExecutingIs(s, ps, m);
    var (e, b, d) := (Executing(s, ps, m), Behind(s, |ps| + 1 + m), Stride(s, n));
    var f := s.eflags[ZERO := Contents(s, SourceCell(s, ps, n)) % TWO8 == Contents(s, DestCell(s, n)) % TWO8];
    TwoAdvance(e, b, f, d);
    ChangeLands(s, ps, m, ComparedElement(s, ps, e, n), ComparedElement(s, ps, b, n));
    var g := if n == 1 then s.eflags[ZERO := Contents(s, DestCell(s, 1)) == s.regs[EAX]] else s.eflags;
    TwoAdvance(e, b, g, d);
    ChangeLands(s, ps, m, ScannedElement(s, e, n), ScannedElement(s, b, n));
  }

  lemma TwoAdvance(e: State, b: State, f: Bits32, d: int)
    requires Alike(e, b)
    ensures var (t, u) := (e.(eflags := f), b.(eflags := f));
            && SameChange(e, Advance(t, EDI, d), b, Advance(u, EDI, d))
            && SameChange(e, Advance(Advance(t, ESI, d), EDI, d), b, Advance(Advance(u, ESI, d), EDI, d))
  {
  }

  /** CMPSB, A6. */
  lemma StepCmps(s: State, ps: seq<u8>, rest: seq<u8>, env: Env)
    requires At(s, ps, 0xA6, rest)
    ensures Step.Step(s, env) == Ok(ComparedElement(s, ps, Behind(s, |ps| + 1), 1))
  {
    hide CodeIs, Step.Step, Finished, Executing, LastSegment, Behind, DoMovs, DoStos, DoLods, DoCmps, DoScas;
    hide ComparedElement, ScannedElement;
    var e := StringExecutes(s, ps, 0xA6, rest, env);
    ExecutingKeeps(s, ps, 0);
    CmpsIs(s, ps, e, 1);
    ComparisonsLand(s, ps, 0, 1);
  }

  /** SCAS, AE and AF. */
  lemma StepScas(s: State, ps: seq<u8>, opcode: u8, rest: seq<u8>, env: Env)
    requires At(s, ps, opcode, rest) && 0xAE <= opcode <= 0xAF
    ensures Step.Step(s, env) == Ok(ScannedElement(s, Behind(s, |ps| + 1), ElementWidth(s, ps, opcode)))
  {
    hide CodeIs, Step.Step, Finished, Executing, LastSegment, Behind, DoMovs, DoStos, DoLods, DoCmps, DoScas;
    hide ComparedElement, ScannedElement;
    var e := StringExecutes(s, ps, opcode, rest, env);
    ExecutingKeeps(s, ps, 0);
    ScasIs(s, e, opcode, ElementWidth(s, ps, opcode));
    ComparisonsLand(s, ps, 0, ElementWidth(s, ps, opcode));
  }

  // ----- Steps with REP -----

  lemma RepRow()
    ensures InstructionTable(0xF2) == Plain(OpRepne, 0) && InstructionTable(0xF3) == Plain(OpRepez, 0)
  {
  }

  /** F2 or F3 before a string opcode runs the repetition the laws of REP are about. */
  lemma RepExecutes(s: State, ps: seq<u8>, rep: u8, opcode: u8, rest: seq<u8>, env: Env) returns (e: State)
    requires At(s, ps, rep, [opcode] + rest) && 0xF2 <= rep <= 0xF3 && StringOpcode(opcode)
    ensures Step.Step(s, env) ==
            Finished(s, DoRepString(e, EntryOf(opcode).subType, EntryOf(opcode).flags, rep == 0xF2))
    ensures e == Executing(s, ps, 1) && e.sgmtOverride == LastSegment(ps, DS)
    ensures StringSize(e, EntryOf(opcode).flags) == ElementWidth(s, ps, opcode)
  {
    hide CodeIs, Step.Step, Finished, LastSegment, DoRepString, RunBare, OverridesSegment, Counted, Wrap32,
      InstructionTable;
    StepAtText(s, ps, rep, [opcode] + rest, env);
    var b := Prefixed(s, ps);
    SameByte(b, [opcode] + rest);
    e := Executing(s, ps, 1);
    RepRow();
    StringRow(opcode);
    RunRep(b, rep, opcode, env);
  }

  lemma RunRep(b: State, rep: u8, opcode: u8, env: Env)
    requires 0xF2 <= rep <= 0xF3 && StringOpcode(opcode) && Code8(b) == opcode
    requires InstructionTable(opcode) == EntryOf(opcode)
        && InstructionTable(rep) == Plain(if rep == 0xF2 then OpRepne else OpRepez, 0)
    ensures RunBare(b, rep, env) ==
            DoRepString(Skip(b, 1).(oldEip := Skip(b, 1).eip), EntryOf(opcode).subType, EntryOf(opcode).flags,
                        rep == 0xF2)
  {
    hide InstructionTable, DoRepString, Skip, Code8, Execute;
    var inst := EntryOf(opcode).(opType := if rep == 0xF2 then OpRepne else OpRepez);
    assert Decode(Skip(b, 1), inst) ==
      Ok(Instruction(inst, 0, NO_RM, NO_RM, NO_RM, Skip(b, 1).(oldEip := Skip(b, 1).eip)));
    RunRepeated(Instruction(inst, 0, NO_RM, NO_RM, NO_RM, Skip(b, 1).(oldEip := Skip(b, 1).eip)), env);
  }

  lemma RunRepeated(i: Instruction, env: Env)
    requires i.inst.opType.OpRepne? || i.inst.opType.OpRepez?
    ensures Execute(i, env) == DoRepString(i.s, i.inst.subType, i.inst.flags, i.inst.opType.OpRepne?)
  {
    hide DoRepString;
  }

  /** The bus address of the first source byte, and of the first destination byte. */
  function SourceAddress(s: State, ps: seq<u8>): u32 { (s.segs[LastSegment(ps, DS)].base + s.regs[ESI]) % TWO32 }
  function DestAddress(s: State): u32 { (s.segs[ES].base + s.regs[EDI]) % TWO32 }

  lemma AddressesAre(s: State, ps: seq<u8>, e: State)
    requires e.regs == s.regs && e.segs == s.segs && e.sgmtOverride == LastSegment(ps, DS)
    ensures StringSource(e) == SourceAddress(s, ps) && StringDest(e) == DestAddress(s)
  {
    hide LastSegment;
  }

  /** REP MOVS, F3 A4 and F3 A5, for every count, overlap and direction, when both blocks lie in the bus: every byte of
      the destination block is the old byte of the source block that `SourceOffset` says, and no other byte changes; ECX
      is 0, ESI and EDI are past the blocks, and everything else is as before. */
  lemma StepRepMovs(s: State, ps: seq<u8>, opcode: u8, rest: seq<u8>, env: Env)
    requires At(s, ps, 0xF3, [opcode] + rest) && 0xA4 <= opcode <= 0xA5
    requires InBus(s.mem, SourceAddress(s, ps), s.regs[ECX], ElementWidth(s, ps, opcode), Up(s))
    requires InBus(s.mem, DestAddress(s), s.regs[ECX], ElementWidth(s, ps, opcode), Up(s))
    ensures Step.Step(s, env).Ok?
    ensures var (t, n, up) := (Step.Step(s, env).value, ElementWidth(s, ps, opcode), Up(s));
            && Moved(s.mem, t.mem, Origin(DestAddress(s), n, up), Origin(SourceAddress(s, ps), n, up), up,
                     Total(s.regs[ECX], n), n)
            && t == Behind(s, |ps| + 2).(mem := t.mem,
                                         regs := s.regs[ECX := 0][ESI := After(s.regs[ESI], s.regs[ECX], n, up)]
                                                       [EDI := After(s.regs[EDI], s.regs[ECX], n, up)])
  {
    hide CodeIs, Step.Step, Finished, LastSegment, Behind, DoRepString, Moved, SourceAddress, DestAddress;
    hide Executing, InBus, After, StringSource, StringDest;
    var e := RepExecutes(s, ps, 0xF3, opcode, rest, env);
    ExecutingIs(s, ps, 1);
    AddressesAre(s, ps, e);
    RepMovs(e, EntryOf(opcode).flags);
    var r := DoRepString(e, MOVS, EntryOf(opcode).flags, false).value;
    ChangeLands(s, ps, 1, r, Behind(s, |ps| + 2).(mem := r.mem, regs := r.regs));
  }

  /** REP STOS, F3 AA, F3 AB and F3 A7: the block at EDI in ES is filled with EAX's bytes. */
  lemma StepRepStos(s: State, ps: seq<u8>, opcode: u8, rest: seq<u8>, env: Env)
    requires At(s, ps, 0xF3, [opcode] + rest) && (0xAA <= opcode <= 0xAB || opcode == 0xA7)
    requires InBus(s.mem, DestAddress(s), s.regs[ECX], ElementWidth(s, ps, opcode), Up(s))
    ensures Step.Step(s, env).Ok?
    ensures var (t, n, up) := (Step.Step(s, env).value, ElementWidth(s, ps, opcode), Up(s));
            && Filled(s.mem, t.mem, DestAddress(s), s.regs[ECX], n, up, s.regs[EAX])
            && t == Behind(s, |ps| + 2).(mem := t.mem, regs := s.regs[ECX := 0]
                                                                     [EDI := After(s.regs[EDI], s.regs[ECX], n, up)])
  {
    hide CodeIs, Step.Step, Finished, LastSegment, Behind, DoRepString, Filled, DestAddress;
    hide Executing, InBus, After, StringSource, StringDest;
    var e := RepExecutes(s, ps, 0xF3, opcode, rest, env);
    ExecutingIs(s, ps, 1);
    AddressesAre(s, ps, e);
    RepStos(e, EntryOf(opcode).flags);
    var r := DoRepString(e, STOS, EntryOf(opcode).flags, false).value;
    ChangeLands(s, ps, 1, r, Behind(s, |ps| + 2).(mem := r.mem, regs := r.regs));
  }

  /** The byte `k` places from the first, in the direction of DF. */
  function LeftByte(s: State, ps: seq<u8>, k: nat): u8
  {
    s.mem[(s.segs[LastSegment(ps, DS)].base + s.regs[ESI] + Stride(s, k)) % Span(s.mem)]
  }

  function RightByte(s: State, k: nat): u8 { s.mem[(s.segs[ES].base + s.regs[EDI] + Stride(s, k)) % Span(s.mem)] }

  lemma ByteIs(s: State, base: u32, r: u32, k: nat)
    ensures Read8(s.mem, Wrap32(Along(Wrap32(base + r), k, Up(s)))) == s.mem[(base + r + Stride(s, k)) % Span(s.mem)]
  {
    var d: int := Stride(s, k);
    hide Wrap32;
    assert Along(Wrap32(base + r), k, Up(s)) == Wrap32(base + r) + d;
    WrapTwice(base + r, d);
    BusIndex(s.mem, base + r + d);
  }

  lemma BusIndex(m: Memory, x: int)
    ensures Translate(m, Wrap32(x)) == x % Span(m)
  {
    AddMultiple(Wrap32(x), x / TWO32 * 0x1000, BUS20);
  }

  /** REPE and REPNE CMPSB, F3 A6 and F2 A6: with `k` leading pairs of bytes that are equal, or that are not, ECX counts
      them and the pair that stops it, if there is one, and ZF says whether the last pair was equal; a count of zero
      changes nothing. */
  lemma StepRepCmpsb(s: State, ps: seq<u8>, rep: u8, rest: seq<u8>, k: nat, env: Env)
    requires At(s, ps, rep, [0xA6] + rest) && 0xF2 <= rep <= 0xF3 && k <= s.regs[ECX]
    requires forall j :: 0 <= j < k ==> (LeftByte(s, ps, j) == RightByte(s, j) <==> rep == 0xF3)
    requires k < s.regs[ECX] ==> (LeftByte(s, ps, k) == RightByte(s, k) <==> rep == 0xF2)
    ensures var (n, b) := (if k < s.regs[ECX] then k + 1 else k, Behind(s, |ps| + 2));
            Step.Step(s, env) ==
              Ok(if s.regs[ECX] == 0 then b
                 else b.(eflags := s.eflags[ZERO := (k < s.regs[ECX]) == (rep == 0xF2)],
                         regs := s.regs[ECX := s.regs[ECX] - n][ESI := (s.regs[ESI] + Stride(s, n)) % TWO32]
                                       [EDI := (s.regs[EDI] + Stride(s, n)) % TWO32]))
  {
    hide CodeIs, Step.Step, Finished, LastSegment, Behind, DoRepString, Executing, LeftByte, RightByte, Stride;
    hide SourceByte, DestByte, Compared;
    var e := RepExecutes(s, ps, rep, 0xA6, rest, env);
    ExecutingIs(s, ps, 1);
    forall j: nat ensures SourceByte(e, j) == LeftByte(s, ps, j) && DestByte(e, j) == RightByte(s, j) {
      BytesAre(s, ps, e, j);
    }
    RepCmpsb(e, k, rep == 0xF2);
    var (n, zf) := (if k < s.regs[ECX] then k + 1 else k, (k < s.regs[ECX]) == (rep == 0xF2));
    if s.regs[ECX] > 0 {
      ComparedIs(e, s, n, zf);
      var r := Compared(e, n, zf);
      ChangeLands(s, ps, 1, r, Behind(s, |ps| + 2).(eflags := r.eflags, regs := r.regs));
    } else {
      ChangeLands(s, ps, 1, e, Behind(s, |ps| + 2));
    }
  }

  /** REPE and REPNE SCASB, F3 AE and F2 AE, the same for the bytes at EDI in ES against EAX. */
  lemma StepRepScasb(s: State, ps: seq<u8>, rep: u8, rest: seq<u8>, k: nat, env: Env)
    requires At(s, ps, rep, [0xAE] + rest) && 0xF2 <= rep <= 0xF3 && k <= s.regs[ECX]
    requires forall j :: 0 <= j < k ==> (RightByte(s, j) == s.regs[EAX] <==> rep == 0xF3)
    requires k < s.regs[ECX] ==> (RightByte(s, k) == s.regs[EAX] <==> rep == 0xF2)
    ensures var (n, b) := (if k < s.regs[ECX] then k + 1 else k, Behind(s, |ps| + 2));
            Step.Step(s, env) ==
              Ok(if s.regs[ECX] == 0 then b
                 else b.(eflags := s.eflags[ZERO := (k < s.regs[ECX]) == (rep == 0xF2)],
                         regs := s.regs[ECX := s.regs[ECX] - n][EDI := (s.regs[EDI] + Stride(s, n)) % TWO32]))
  {
    hide CodeIs, Step.Step, Finished, LastSegment, Behind, DoRepString, Executing, LeftByte, RightByte, Stride;
    hide SourceByte, DestByte, Scanned;
    var e := RepExecutes(s, ps, rep, 0xAE, rest, env);
    ExecutingIs(s, ps, 1);
    forall j: nat ensures DestByte(e, j) == RightByte(s, j) { BytesAre(s, ps, e, j); }
    RepScasb(e, k, rep == 0xF2);
    var (n, zf) := (if k < s.regs[ECX] then k + 1 else k, (k < s.regs[ECX]) == (rep == 0xF2));
    if s.regs[ECX] > 0 {
      ScannedIs(e, s, n, zf);
      var r := Scanned(e, n, zf);
      ChangeLands(s, ps, 1, r, Behind(s, |ps| + 2).(eflags := r.eflags, regs := r.regs));
    } else {
      ChangeLands(s, ps, 1, e, Behind(s, |ps| + 2));
    }
  }

  lemma ScannedIs(e: State, s: State, n: nat, zf: bool)
    requires e.regs == s.regs && e.eflags == s.eflags && 0 < n <= s.regs[ECX]
    ensures Scanned(e, n, zf) ==
            e.(eflags := s.eflags[ZERO := zf],
               regs := s.regs[ECX := s.regs[ECX] - n][EDI := (s.regs[EDI] + Stride(s, n)) % TWO32])
  {
  }

  lemma BytesAre(s: State, ps: seq<u8>, e: State, j: nat)
    requires e.regs == s.regs && e.segs == s.segs && e.mem == s.mem && e.eflags == s.eflags
    requires e.sgmtOverride == LastSegment(ps, DS)
    ensures SourceByte(e, j) == LeftByte(s, ps, j) && DestByte(e, j) == RightByte(s, j)
  {
    hide LastSegment, Read8, Wrap32;
    ByteIs(s, s.segs[LastSegment(ps, DS)].base, s.regs[ESI], j);
    ByteIs(s, s.segs[ES].base, s.regs[EDI], j);
  }

  lemma ComparedIs(e: State, s: State, n: nat, zf: bool)
    requires e.regs == s.regs && e.eflags == s.eflags && 0 < n <= s.regs[ECX]
    ensures Compared(e, n, zf) ==
            e.(eflags := s.eflags[ZERO := zf],
               regs := s.regs[ECX := s.regs[ECX] - n][ESI := (s.regs[ESI] + Stride(s, n)) % TWO32]
                             [EDI := (s.regs[EDI] + Stride(s, n)) % TWO32])
  {
  }

  /** In 16-bit code the processor uses SI and DI. The element is the same exactly when the register's upper half is a
      multiple of the bus's size, and the index moves in the same way exactly when its low half does not carry. */
  lemma FullIndex(s: State, g: SegIndex, r: u32, n: nat, d: int)
    requires -4 <= d <= 4
    ensures Cell(s, g, r, n) == Cell(s, g, r % TWO16, n) <==> r / TWO16 * TWO16 % Span(s.mem) == 0
    ensures (r + d) % TWO32 == r / TWO16 * TWO16 + (r % TWO16 + d) % TWO16 <==> 0 <= r % TWO16 + d < TWO16
  {
    SameRemainder(s.segs[g].base + r % TWO16, r / TWO16 * TWO16, Span(s.mem));
    FullAdvance(r, d);
  }

  lemma SameRemainder(x: int, k: int, m: int)
    requires m > 0
    ensures (x + k) % m == x % m <==> k % m == 0
  {
    if k % m == 0 {
      AddMultiple(x, k / m, m);
    } else if (x + k) % m == x % m {
      var q := (x + k) / m - x / m;
      assert x + k == (x + k) / m * m + (x + k) % m && x == x / m * m + x % m;
      assert k == q * m + 0 by { assert (x + k) / m * m - x / m * m == q * m; }
      DivModUnique(k, q, 0, m);
    }
  }

  lemma FullAdvance(r: u32, d: int)
    requires -4 <= d <= 4
    ensures (r + d) % TWO32 == r / TWO16 * TWO16 + (r % TWO16 + d) % TWO16 <==> 0 <= r % TWO16 + d < TWO16
  {
    var (h, l) := (r / TWO16, r % TWO16);
    assert r == h * TWO16 + l && h < TWO16;
    if l + d < 0 {
      DivModUnique(l + d, -1, l + d + TWO16, TWO16);
    } else if l + d >= TWO16 {
      DivModUnique(l + d, 1, l + d - TWO16, TWO16);
    } else {
      DivModUnique(l + d, 0, l + d, TWO16);
    }
  }
}
