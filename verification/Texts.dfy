/** A whole instruction read off its text: prefixes, opcode, and the bytes behind it. What one step does is traced to
    the places the text names. */
module Texts {
  import opened Words
  import opened I386
  import opened Machine
  import opened Step
  import opened RunInvariants
  import opened Disassembler
  import Decoders
  import opened Instructions
  import opened Places
  import opened Addressing

  /** The text at EIP is the prefixes `ps`, any, then an opcode byte and the bytes `rest`. */
  ghost predicate At(s: State, ps: seq<u8>, opcode: u8, rest: seq<u8>)
  {
    && NothingPending(s) && CodeIs(s, ps + [opcode] + rest) && |ps| + 1 + |rest| < TWO32
    && (forall i :: 0 <= i < |ps| ==> PrefixByte(ps[i])) && !PrefixByte(opcode)
  }

  predicate PrefixByte(b: u8) { b == 0x66 || b == 0x67 || b == 0xF0 || SegmentPrefix(b) }

  lemma PrefixesAre(ps: seq<u8>, opcode: u8)
    requires (forall i :: 0 <= i < |ps| ==> PrefixByte(ps[i])) && !PrefixByte(opcode)
    ensures Decoders.AllPrefixes(ps) && !IsPrefix(opcode)
  {
    PrefixBytes(opcode);
    forall i | 0 <= i < |ps| ensures IsPrefix(ps[i]) { PrefixBytes(ps[i]); }
    hide InstructionTable;
  }

  /** The sizes in force: 66 and 67 each turn the code segment's size over, however often they occur. */
  predicate Wide(s: State, ps: seq<u8>) { s.segs[CS].use32 != (0x66 in ps) }
  predicate WideAddress(s: State, ps: seq<u8>) { s.segs[CS].use32 != (0x67 in ps) }

  function OperandBytes(s: State, ps: seq<u8>, size: Size): nat { Width(ActualSize(size, Wide(s, ps))) }

  // ----- The ModR/M operand -----

  function TextAddress(s: State, ps: seq<u8>, rest: seq<u8>): Address
    requires |rest| > 0
  {
    AddressOf(WideAddress(s, ps), rest[0], rest[1..])
  }

  /** All bytes of the ModR/M operand are there. */
  predicate HasRm(s: State, ps: seq<u8>, rest: seq<u8>)
  {
    && |rest| > 0
    && (ModField(rest[0]) < 3 ==>
          (WideAddress(s, ps) && RmOf(rest[0]) == 4 ==> |rest| > 1) && Tail(TextAddress(s, ps, rest)) < |rest|)
  }

  /** It is no scaled index that the interpreter cannot decode. */
  predicate RmDecodes(s: State, ps: seq<u8>, rest: seq<u8>)
    requires |rest| > 0
  {
    ModField(rest[0]) == 3 || !WideAddress(s, ps) || Decodes(TextAddress(s, ps, rest))
  }

  function RmBytes(s: State, ps: seq<u8>, rest: seq<u8>): (m: nat)
    requires |rest| > 0
    ensures HasRm(s, ps, rest) ==> m <= |rest|
  {
    if ModField(rest[0]) == 3 then 1 else 1 + Tail(TextAddress(s, ps, rest))
  }

  /** The segment of the last segment prefix, or else the one that goes with the address. */
  function RmSegment(s: State, ps: seq<u8>, rest: seq<u8>): SegIndex
    requires |rest| > 0
  {
    LastSegment(ps, if OnStack(TextAddress(s, ps, rest)) then SS else DS)
  }

  /** The register or the `n` bytes of memory that the ModR/M byte names. */
  function RmPlace(s: State, ps: seq<u8>, rest: seq<u8>, n: nat): Place
    requires HasRm(s, ps, rest)
  {
    if ModField(rest[0]) == 3 then Register(RmOf(rest[0]), n)
    else
      Cell(s, RmSegment(s, ps, rest),
           OffsetOf(s.regs, TextAddress(s, ps, rest), rest[1..], WideAddress(s, ps)), n)
  }

  function RegPlace(rest: seq<u8>, n: nat): Place
    requires |rest| > 0
  {
    Register(RegOf(rest[0]), n)
  }

  // ----- From the text to the execution -----

  /** What is left of an execution behind the prefixes: nothing pending, and one step counted. */
  function Finished(s: State, r: Result<State>): Result<State>
  {
    match r
    case Ok(t) => Ok(t.(opOverride := false, addrOverride := false, overridingSgmt := false, sgmtOverride := DS,
                        stepsRun := s.stepsRun + 1))
    case Halted(why) => Halted(why)
  }

  lemma StepAtText(s: State, ps: seq<u8>, opcode: u8, rest: seq<u8>, env: Env)
    requires At(s, ps, opcode, rest)
    ensures Step.Step(s, env) == Finished(s, RunBare(Prefixed(s, ps), opcode, env))
    ensures var b := Prefixed(s, ps);
            && CodeIs(b, rest) && OpSize32(b) == Wide(s, ps) && AddrSize32(b) == WideAddress(s, ps)
            && b.eip == Wrap32(s.eip + |ps| + 1)
  {
    hide CodeIs, IsPrefix, Step.Step, RunBare, PrefixedCode, OverridesSegment, LastSegment, Counted, Wrap32;
    var code := ps + [opcode] + rest;
    var k := |ps|;
    assert code[..k] == ps && code[k] == opcode && code[k + 1..] == rest;
    PrefixesAre(ps, opcode);
    Decoders.PrefixesInCode(s, code, k);
    StepScansPrefixes(s, ps, opcode, env);
    CodeShifts(s, code, k + 1);
    CodeByFields(Skip(s, k + 1), Prefixed(s, ps), rest);
    SizesBehindPrefixes(s, Prefixed(s, ps), ps);
  }

  /** The decoder's ModR/M operand, and the state behind it. */
  ghost predicate RmAt(s: State, ps: seq<u8>, rest: seq<u8>, rm: Decoded, t: State)
    requires HasRm(s, ps, rest)
  {
    && t == Skip(Prefixed(s, ps), RmBytes(s, ps, rest)) && CodeIs(t, rest[RmBytes(s, ps, rest)..])
    && (ModField(rest[0]) < 3 <==> rm.kind.DMem?)
    && (ModField(rest[0]) < 3 ==>
          rm.id == OffsetOf(s.regs, TextAddress(s, ps, rest), rest[1..], WideAddress(s, ps)))
    && forall size :: FlagSize(size) ==>
         Location(DecodedRm(t, rm, size)) && PlaceOf(t, DecodedRm(t, rm, size)) == RmPlace(s, ps, rest, Width(size))
  }

  /** With a segment prefix the default does not matter, and without one it is what counts. */
  lemma {:induction false} SegmentChosen(ps: seq<u8>, d: SegIndex)
    ensures LastSegment(ps, d) == if OverridesSegment(ps) then LastSegment(ps, DS) else d
  {
    if !OverridesSegment(ps) {
      NoSegment(ps, d);
    } else {
      var low := ps[..|ps| - 1];
      assert ps == low + [ps[|ps| - 1]];
      if !SegmentPrefix(ps[|ps| - 1]) {
        var p :| p in ps && SegmentPrefix(p);
        assert p in low;
        SegmentChosen(low, d);
      }
    }
  }

  lemma MemoryPlace(s: State, ps: seq<u8>, t: State, offset: u32, stack: bool, size: Size)
    requires NothingPending(s) && t == Prefixed(s, ps).(eip := t.eip) && FlagSize(size)
    ensures var d := DecodedRm(t, Decoded(DMem, offset, Sz8, if stack then SS else 0), size);
            Location(d) && PlaceOf(t, d) == Cell(s, LastSegment(ps, if stack then SS else DS), offset, Width(size))
  {
    hide LastSegment, OverridesSegment, Counted, Wrap32;
    SegmentChosen(ps, SS);
  }

  /** The ModR/M operand is decoded to the place that the text names; an undefined scaled index stops the program. */
  lemma RmAtText(s: State, ps: seq<u8>, rest: seq<u8>) returns (rm: Decoded, t: State)
    requires NothingPending(s) && CodeIs(Prefixed(s, ps), rest) && HasRm(s, ps, rest)
    requires AddrSize32(Prefixed(s, ps)) == WideAddress(s, ps)
    ensures Code8(Prefixed(s, ps)) == rest[0]
    ensures DecodeRm(Skip(Prefixed(s, ps), 1), rest[0]) ==
            if RmDecodes(s, ps, rest) then Ok((rm, t)) else Halted(HostUndefined)
    ensures RmDecodes(s, ps, rest) ==> RmAt(s, ps, rest, rm, t)
  {
    var (b, modrm, text) := (Prefixed(s, ps), rest[0], rest[1..]);
    SameByte(b, rest);
    CodeShifts(b, rest, 1);
    AddrSizeSkipped(b, 1);
    if ModField(modrm) == 3 {
      rm, t := Decoded(DReg, RmOf(modrm), Sz8, 0), Skip(b, 1);
      RegisterDecoded(Skip(b, 1), modrm);
    } else {
      hide Prefixed, CodeIs, OffsetOf, DecodeRm16, DecodeRm32, Code8;
      var a := TextAddress(s, ps, rest);
      if WideAddress(s, ps) { Decodes32(Skip(b, 1), modrm, text); } else { Decodes16(Skip(b, 1), modrm, text); }
      rm, t := MemoryAtText(s, ps, rest);
    }
  }

  lemma RegisterDecoded(s: State, modrm: u8)
    requires ModField(modrm) == 3
    ensures DecodeRm(s, modrm) == Ok((Decoded(DReg, RmOf(modrm), Sz8, 0), s))
  {
  }

  lemma MemoryAtText(s: State, ps: seq<u8>, rest: seq<u8>) returns (rm: Decoded, t: State)
    requires NothingPending(s) && CodeIs(Prefixed(s, ps), rest) && HasRm(s, ps, rest) && ModField(rest[0]) < 3
    ensures var (b, a) := (Prefixed(s, ps), TextAddress(s, ps, rest));
            && rm == Decoded(DMem, OffsetOf(Skip(b, 1).regs, a, rest[1..], WideAddress(s, ps)), Sz8,
                             if OnStack(a) then SS else 0)
            && t == Skip(Skip(b, 1), Tail(a))
    ensures RmAt(s, ps, rest, rm, t)
  {
    hide CodeIs, OffsetOf, LastSegment, OverridesSegment, Counted, DecodedRm, Wrap32;
    var (b, a) := (Prefixed(s, ps), TextAddress(s, ps, rest));
    rm := Decoded(DMem, OffsetOf(s.regs, a, rest[1..], WideAddress(s, ps)), Sz8, if OnStack(a) then SS else 0);
    t := Skip(Skip(b, 1), Tail(a));
    SkipTwice(b, 1, Tail(a));
    CodeShifts(b, rest, 1 + Tail(a));
    forall size | FlagSize(size)
      ensures Location(DecodedRm(t, rm, size))
      ensures PlaceOf(t, DecodedRm(t, rm, size)) == RmPlace(s, ps, rest, Width(size))
    {
      MemoryPlace(s, ps, t, rm.id, OnStack(a), size);
    }
  }

  // ----- The step is the execution of the decoded instruction -----

  /** The state in which an instruction of `n` bytes behind the prefixes is executed. */
  function Executing(s: State, ps: seq<u8>, n: nat): State
  {
    var b := Skip(Prefixed(s, ps), n);
    b.(oldEip := b.eip)
  }

  /** An instruction with a ModR/M byte, whose operation may be in the reg field. */
  lemma StepWithModrm(s: State, ps: seq<u8>, opcode: u8, rest: seq<u8>, env: Env, fixed: Op)
      returns (rm: Decoded, t: State)
    requires At(s, ps, opcode, rest) && PlainOpcode(opcode) && UsesModrm(InstructionTable(opcode))
    requires HasRm(s, ps, rest)
    requires Fixup(InstructionTable(opcode), RegOf(rest[0])) == Ok(fixed) && InlineOperands(fixed)
    ensures Step.Step(s, env) ==
            if RmDecodes(s, ps, rest) then Finished(s, Execute(Form(t, rm, RegOf(rest[0]), fixed), env))
            else Halted(HostUndefined)
    ensures RmDecodes(s, ps, rest) ==> RmAt(s, ps, rest, rm, t)
    ensures OpSize32(Prefixed(s, ps)) == Wide(s, ps) && AddrSize32(Prefixed(s, ps)) == WideAddress(s, ps)
  {
    hide CodeIs, Execute, Form, InlineOperands, Fixup, DecodeOperands, Prefixed, RmDecodes, RmAt, DecodeRm, Skip, Code8;
    hide Step.Step;
    StepAtText(s, ps, opcode, rest, env);
    rm, t := RmAtText(s, ps, rest);
    OperandsDecode(t, rm, RegOf(rest[0]), fixed);
    BareWithModrm(Prefixed(s, ps), opcode, rest[0], env, fixed);
  }

  lemma BareWithModrm(b: State, opcode: u8, modrm: u8, env: Env, fixed: Op)
    requires PlainOpcode(opcode) && UsesModrm(InstructionTable(opcode)) && Code8(b) == modrm
    requires Fixup(InstructionTable(opcode), RegOf(modrm)) == Ok(fixed)
    ensures RunBare(b, opcode, env) ==
            match DecodeRm(Skip(b, 1), modrm)
            case Halted(why) => Halted(why)
            case Ok(p) =>
              (match DecodeOperands(p.1, p.0, RegOf(modrm), fixed)
               case Halted(why) => Halted(why)
               case Ok(i) => Execute(i, env))
  {
    hide InstructionTable, Execute, DecodeOperands, DecodeRm, Fixup, Skip, Code8;
  }

  /** An instruction without one. */
  lemma StepWithoutModrm(s: State, ps: seq<u8>, opcode: u8, rest: seq<u8>, env: Env)
    requires At(s, ps, opcode, rest) && PlainOpcode(opcode) && !UsesModrm(InstructionTable(opcode))
    requires InlineOperands(InstructionTable(opcode))
        && Fixup(InstructionTable(opcode), 0) == Ok(InstructionTable(opcode))
    ensures Step.Step(s, env) ==
            Finished(s, Execute(Form(Prefixed(s, ps), NO_RM, 0, InstructionTable(opcode)), env))
    ensures CodeIs(Prefixed(s, ps), rest) && OpSize32(Prefixed(s, ps)) == Wide(s, ps)
    ensures AddrSize32(Prefixed(s, ps)) == WideAddress(s, ps)
  {
    hide CodeIs, Execute, Form, InlineOperands, Fixup, DecodeOperands, Prefixed, Skip, Code8, InstructionTable,
      Step.Step;
    StepAtText(s, ps, opcode, rest, env);
    OperandsDecode(Prefixed(s, ps), NO_RM, 0, InstructionTable(opcode));
  }

  /** What an execution leaves in registers, memory, flags and segments is what the step leaves. */
  lemma Lands(s: State, ps: seq<u8>, n: nat, u: State)
    requires NothingPending(s) && u.cr == s.cr && u.oldEip == Executing(s, ps, n).oldEip
    ensures Finished(s, Ok(u)) ==
            Ok(Behind(s, |ps| + 1 + n).(regs := u.regs, mem := u.mem, eflags := u.eflags, segs := u.segs, eip := u.eip))
  {
    hide Wrap32, OverridesSegment, LastSegment, Counted;
    WrapTwice(s.eip + |ps| + 1, n);
    assert s.eip + |ps| + 1 + n == s.eip + (|ps| + 1 + n);
  }

  /** An assignment in the executing state is one in the state behind the instruction. */
  lemma AssignmentLands(s: State, ps: seq<u8>, n: nat, p: Place, v: int)
    requires NothingPending(s) && IsPlace(s.mem, p)
    ensures Contents(Executing(s, ps, n), p) == Contents(s, p)
    ensures Finished(s, Ok(Assigned(Executing(s, ps, n), p, v))) == Ok(Assigned(Behind(s, |ps| + 1 + n), p, v))
  {
    hide Contents, Assigned, Wrap32, OverridesSegment, LastSegment, Counted;
    var e := Executing(s, ps, n);
    SamePlaces(e, s, p, v);
    SamePlaces(Behind(s, |ps| + 1 + n), s, p, v);
    WrapTwice(s.eip + |ps| + 1, n);
    assert s.eip + |ps| + 1 + n == s.eip + (|ps| + 1 + n);
    Lands(s, ps, n, Assigned(e, p, v));
  }

  /** Where the decoded form is executed: behind the ModR/M operand `m` and the operands in the code. */
  lemma FormExecutes(s: State, ps: seq<u8>, m: nat, rm: Decoded, reg: RegIndex, inst: Op)
    ensures var t := Skip(Prefixed(s, ps), m);
            var n := BytesTaken(t, inst.dest) + BytesTaken(t, inst.src1) + BytesTaken(t, inst.src2);
            Form(t, rm, reg, inst).s == Executing(s, ps, m + n)
    ensures !Takes(inst.dest) && !Takes(inst.src1) && !Takes(inst.src2) ==>
              Form(Skip(Prefixed(s, ps), m), rm, reg, inst).s == Executing(s, ps, m)
    ensures Skip(Prefixed(s, ps), 0) == Prefixed(s, ps)
  {
    hide Prefixed, Wrap32, Meaning;
    var b := Prefixed(s, ps);
    var t := Skip(b, m);
    var n := BytesTaken(t, inst.dest) + BytesTaken(t, inst.src1) + BytesTaken(t, inst.src2);
    SkipTwice(b, m, n);
  }

  // ----- What the operands of the decoded form are -----

  /** An operand as the text gives it: a place, a number, a segment register, DX and AX or EDX and EAX, or none. */
  datatype Source = Held(p: Place) | Value(v: int) | Segment(r: int) | Pair | Nothing

  predicate GeneralSize(size: Size) { size.Sz8? || size.Sz16? || size.Sz1632? || size.Sz816? }

  /** How many bytes of the text belong to the operand. */
  function TextBytes(s: State, ps: seq<u8>, op: Operand): nat
  {
    if op.kind.KOffset? then (if WideAddress(s, ps) then 4 else 2)
    else if Takes(op) then ImmBytes(ActualSize(op.size, Wide(s, ps))) else 0
  }

  /** The operand's bytes, if it has any, are the first of `text`. */
  function TextOperand(s: State, ps: seq<u8>, rest: seq<u8>, reg: RegIndex, at: nat, op: Operand): Source
    requires op.kind.KRmModrm? ==> HasRm(s, ps, rest)
    requires at + TextBytes(s, ps, op) <= |rest|
  {
    var (n, k) := (OperandBytes(s, ps, op.size), TextBytes(s, ps, op));
    match op.kind
    case KRmModrm => Held(RmPlace(s, ps, rest, n))
    case KRegModrm => Held(Register(reg, n))
    case KConstReg => Held(Register(op.value % 8, n))
    case KSegRegModrm => Segment(reg)
    case KConstSegReg => Segment(op.value)
    case KEdxEax => Pair
    case KConstant => Value(op.value)
    case KImm => Value(Number(rest[at..at + k]))
    case KSimm => Value(SignedNumber(rest[at..at + k]) % TWO32)
    case KIpRel => Value((s.eip + |ps| + 1 + at + k + SignedNumber(rest[at..at + k])) % TWO32)
    case KOffset => Held(Cell(s, LastSegment(ps, DS), Number(rest[at..at + k]), n))
    case _ => Nothing
  }

  /** One or two bytes as a signed number; more stay as they are. */
  function SignedNumber(bytes: seq<u8>): int
  {
    if |bytes| == 1 then Signed8(Number(bytes)) else if |bytes| == 2 then Signed16(Number(bytes)) else Number(bytes)
  }

  predicate PlainOperand(op: Operand)
  {
    && Inline(op) && (op.kind.KConstReg? ==> op.value < 8)
      && (op.kind.KNone? || op.kind.KEdxEax? || GeneralSize(op.size))
    && (op.kind.KIpRel? || op.kind.KImm? || op.kind.KSimm? ==> !op.size.Sz816?)
  }

  /** The decoded operand, in the state that executes, is the one the text gives. */
  ghost predicate Denotes(s: State, e: State, d: Decoded, x: Source)
  {
    match x
    case Held(p) => Location(d) && PlaceOf(e, d) == p && IsPlace(s.mem, p)
    case Value(v) => d.kind.DImm? && d.id == v
    case Segment(r) => d.kind.DSegReg? && d.id == r
    case Pair => d.kind.DEdxEax?
    case Nothing => d.kind.DNone?
  }

  lemma RmDenotes(s: State, ps: seq<u8>, rest: seq<u8>, rm: Decoded, t: State, n: nat, reg: RegIndex, op: Operand)
    requires HasRm(s, ps, rest) && RmAt(s, ps, rest, rm, t) && op.kind.KRmModrm? && GeneralSize(op.size)
    requires OpSize32(Prefixed(s, ps)) == Wide(s, ps)
    ensures Denotes(s, Executing(s, ps, n), Meaning(t, rm, reg, op),
        Held(RmPlace(s, ps, rest, OperandBytes(s, ps, op.size))))
  {
    hide CodeIs, RmPlace, RmBytes, Wrap32, LastSegment, OverridesSegment, Counted;
    var d := DecodedRm(t, rm, ActualSize(op.size, Wide(s, ps)));
    assert OpSize32(t) == Wide(s, ps);
    assert PlaceOf(Executing(s, ps, n), d) == PlaceOf(t, d);
  }

  /** The operands that are not the ModR/M one and have no bytes in the text. */
  lemma FixedDenotes(s: State, ps: seq<u8>, rest: seq<u8>, rm: Decoded, t: State, n: nat, reg: RegIndex, op: Operand)
    requires PlainOperand(op) && !Takes(op) && !op.kind.KRmModrm?
    requires t == Prefixed(s, ps).(eip := t.eip) && OpSize32(Prefixed(s, ps)) == Wide(s, ps)
    ensures Denotes(s, Executing(s, ps, n), Meaning(t, rm, reg, op), TextOperand(s, ps, rest, reg, |rest|, op))
  {
    hide Wrap32, LastSegment, OverridesSegment, Counted, SignedNumber, Number;
    assert OpSize32(t) == Wide(s, ps);
  }

  /** Immediates, as they are and as signed numbers. */
  lemma ImmediateValue(t: State, text: seq<u8>, size: Size)
    requires CodeIs(t, text) && FlagSize(size) && ImmBytes(size) <= |text|
    ensures ImmValue(t, size) == Number(text[..ImmBytes(size)])
    ensures SignedImm(t, size) == SignedNumber(text[..ImmBytes(size)]) % TWO32
  {
    FirstBytes(t, text);
    FirstNumbers(text);
    NumberOfOne(text);
    hide CodeIs, Code8, Code16, Code32, Bytes16, Bytes32, Number, Signed8, Signed16;
    if size == Sz32 { WrapSmall(Code32(t)); }
  }

  lemma NumberOfOne(text: seq<u8>)
    ensures |text| >= 1 ==> Number(text[..1]) == text[0]
  {
    if |text| >= 1 { assert text[..1][1..] == []; }
  }

  lemma EipAt(s: State, ps: seq<u8>, at: nat)
    ensures Skip(Prefixed(s, ps), at).eip == Wrap32(Wrap32(s.eip + |ps| + 1) + at)
  {
    hide LastSegment, OverridesSegment, Counted, Wrap32;
  }

  lemma RelativeTarget(x: int, at: nat, k: nat, d: int)
    ensures Wrap32(Wrap32(Wrap32(x) + at) + k + Wrap32(d)) == (x + at + k + d) % TWO32
  {
    WrapTwice(x, at);
    WrapTwice(x + at, k + Wrap32(d));
    WrapTwice(d, x + at + k);
  }

  /** The operands that are in the text. */
  lemma ImmediateDenotes(s: State, ps: seq<u8>, rest: seq<u8>, rm: Decoded, t: State, at: nat, n: nat, reg: RegIndex,
      op: Operand)
    requires NothingPending(s) && PlainOperand(op) && (op.kind.KImm? || op.kind.KSimm? || op.kind.KIpRel?)
    requires at + TextBytes(s, ps, op) <= |rest|
    requires t == Skip(Prefixed(s, ps), at) && CodeIs(t, rest[at..]) && OpSize32(t) == Wide(s, ps)
    ensures Denotes(s, Executing(s, ps, n), Meaning(t, rm, reg, op), TextOperand(s, ps, rest, reg, at, op))
  {
    hide CodeIs, ImmValue, SignedImm, Number, SignedNumber, Executing, Prefixed, Skip, Meaning, TextOperand;
    hide RmPlace, PlaceOf, Location, IsPlace;
    var (k, size) := (TextBytes(s, ps, op), ActualSize(op.size, Wide(s, ps)));
    TextImmediate(s, ps, rest, reg, at, op);
    MeaningImmediate(t, rm, reg, op, size);
    ImmediateValue(t, rest[at..], size);
    assert rest[at..][..k] == rest[at..at + k];
    EipAt(s, ps, at);
    RelativeTarget(s.eip + |ps| + 1, at, k, SignedNumber(rest[at..at + k]));
  }

  lemma TextImmediate(s: State, ps: seq<u8>, rest: seq<u8>, reg: RegIndex, at: nat, op: Operand)
    requires PlainOperand(op) && (op.kind.KImm? || op.kind.KSimm? || op.kind.KIpRel?)
    requires at + TextBytes(s, ps, op) <= |rest|
    ensures var (k, size) := (TextBytes(s, ps, op), ActualSize(op.size, Wide(s, ps)));
            var d := SignedNumber(rest[at..at + k]);
            && FlagSize(size) && k == ImmBytes(size)
            && TextOperand(s, ps, rest, reg, at, op) ==
                 Value(if op.kind.KImm? then Number(rest[at..at + k])
                       else if op.kind.KSimm? then d % TWO32 else (s.eip + |ps| + 1 + at + k + d) % TWO32)
  {
    hide Number, SignedNumber;
  }

  lemma MeaningImmediate(t: State, rm: Decoded, reg: RegIndex, op: Operand, size: Size)
    requires op.kind.KImm? || op.kind.KSimm? || op.kind.KIpRel?
    requires size == ActualSize(op.size, OpSize32(t))
    ensures Meaning(t, rm, reg, op) ==
            Decoded(DImm, if op.kind.KImm? then ImmValue(t, size) else if op.kind.KSimm? then SignedImm(t, size)
                          else Wrap32(t.eip + ImmBytes(size) + SignedImm(t, size)), size, 0)
  {
    hide ImmValue, SignedImm, Wrap32;
  }

  lemma OffsetDenotes(s: State, ps: seq<u8>, rest: seq<u8>, rm: Decoded, t: State, at: nat, n: nat, reg: RegIndex,
      op: Operand)
    requires NothingPending(s) && PlainOperand(op) && op.kind.KOffset? && at + TextBytes(s, ps, op) <= |rest|
    requires t == Skip(Prefixed(s, ps), at) && CodeIs(t, rest[at..])
    requires OpSize32(t) == Wide(s, ps) && AddrSize32(t) == WideAddress(s, ps)
    ensures Denotes(s, Executing(s, ps, n), Meaning(t, rm, reg, op), TextOperand(s, ps, rest, reg, at, op))
  {
    var v := OffsetValue(t, rest, at, TextBytes(s, ps, op));
    hide CodeIs, Code16, Code32, Number, Wrap32, OverridesSegment, LastSegment, Counted, SignedNumber, OperandBytes;
    OffsetPlace(s, ps, t, n, v, ActualSize(op.size, Wide(s, ps)));
  }

  lemma OffsetValue(t: State, rest: seq<u8>, at: nat, k: nat) returns (v: u32)
    requires at + k <= |rest| && CodeIs(t, rest[at..]) && k == if AddrSize32(t) then 4 else 2
    ensures v == Number(rest[at..at + k]) && v == if AddrSize32(t) then Code32(t) else Code16(t)
  {
    FirstBytes(t, rest[at..]);
    FirstNumbers(rest[at..]);
    assert rest[at..][..k] == rest[at..at + k];
    hide CodeIs, Code16, Code32, Number, AddrSize32;
    v := if AddrSize32(t) then Code32(t) else Code16(t);
  }

  lemma OffsetPlace(s: State, ps: seq<u8>, t: State, n: nat, v: u32, size: Size)
    requires NothingPending(s) && t == Prefixed(s, ps).(eip := t.eip) && FlagSize(size)
    ensures var d := Decoded(DMem, v, size, t.sgmtOverride);
            && Location(d) && PlaceOf(Executing(s, ps, n), d) == Cell(s, LastSegment(ps, DS), v, Width(size))
            && IsPlace(s.mem, Cell(s, LastSegment(ps, DS), v, Width(size)))
  {
    hide Wrap32, OverridesSegment, LastSegment, Counted;
  }

  lemma OperandDenotes(s: State, ps: seq<u8>, rest: seq<u8>, rm: Decoded, t: State, m: nat, n: nat, reg: RegIndex,
      op: Operand)
    requires NothingPending(s) && PlainOperand(op) && m + TextBytes(s, ps, op) <= |rest|
    requires t == Skip(Prefixed(s, ps), m) && CodeIs(t, rest[m..])
    requires OpSize32(Prefixed(s, ps)) == Wide(s, ps) && AddrSize32(Prefixed(s, ps)) == WideAddress(s, ps)
    requires op.kind.KRmModrm? ==> HasRm(s, ps, rest) && RmAt(s, ps, rest, rm, t)
    ensures Denotes(s, Executing(s, ps, n), Meaning(t, rm, reg, op), TextOperand(s, ps, rest, reg, m, op))
    ensures BytesTaken(t, op) == TextBytes(s, ps, op)
    ensures op.kind.KNone? || Meaning(t, rm, reg, op).size == ActualSize(op.size, Wide(s, ps))
  {
    hide CodeIs, Prefixed, RmAt, Executing, Denotes, RmPlace, HasRm, Number, SignedNumber, Code16, Code32;
    hide SignedImm, ImmValue, Wrap32, DecodedRm, LastSegment;
    AddrSizeSkipped(Prefixed(s, ps), m);
    OnlyEip(s, ps, m);
    if op.kind.KRmModrm? {
      RmDenotes(s, ps, rest, rm, t, n, reg, op);
    } else if !Takes(op) {
      FixedDenotes(s, ps, rest, rm, t, n, reg, op);
    } else if op.kind.KOffset? {
      OffsetDenotes(s, ps, rest, rm, t, m, n, reg, op);
    } else {
      ImmediateDenotes(s, ps, rest, rm, t, m, n, reg, op);
    }
    if !op.kind.KNone? { MeaningSize(t, rm, reg, op); }
  }

  lemma OnlyEip(s: State, ps: seq<u8>, m: nat)
    ensures Skip(Prefixed(s, ps), m) == Prefixed(s, ps).(eip := Skip(Prefixed(s, ps), m).eip)
  {
    hide Prefixed;
  }

  lemma MeaningSize(t: State, rm: Decoded, reg: RegIndex, op: Operand)
    requires Inline(op) && !op.kind.KNone?
    ensures Meaning(t, rm, reg, op).size == ActualSize(op.size, OpSize32(t))
  {
    hide SignedImm, ImmValue, Wrap32, Code16, Code32;
  }

  /** The text holds all the operands, the ModR/M one in its first `m` bytes. */
  predicate HasOperands(s: State, ps: seq<u8>, rest: seq<u8>, m: nat, inst: Op)
  {
    && InlineOperands(inst) && PlainOperand(inst.dest) && PlainOperand(inst.src1) && PlainOperand(inst.src2)
    && m + TextBytes(s, ps, inst.dest) + TextBytes(s, ps, inst.src1) + TextBytes(s, ps, inst.src2) <= |rest|
    && (NamesRm(inst) ==> HasRm(s, ps, rest))
  }

  predicate NamesRm(inst: Op) { inst.dest.kind.KRmModrm? || inst.src1.kind.KRmModrm? || inst.src2.kind.KRmModrm? }

  /** The bytes behind the opcode. */
  function TextLength(s: State, ps: seq<u8>, m: nat, inst: Op): nat
  {
    m + TextBytes(s, ps, inst.dest) + TextBytes(s, ps, inst.src1) + TextBytes(s, ps, inst.src2)
  }

  /** The decoded instruction is the one in the text, at its end. */
  ghost predicate DecodedAs(s: State, ps: seq<u8>, rest: seq<u8>, reg: RegIndex, m: nat, inst: Op, i: Instruction)
    requires HasOperands(s, ps, rest, m, inst)
  {
    && i.inst == inst && i.reg == reg && i.s == Executing(s, ps, TextLength(s, ps, m, inst)) && i.s.mem == s.mem
    && Denotes(s, i.s, i.dst, TextOperand(s, ps, rest, reg, m, inst.dest))
    && Denotes(s, i.s, i.src1, TextOperand(s, ps, rest, reg, m, inst.src1))
    && Denotes(s, i.s, i.src2, TextOperand(s, ps, rest, reg, m, inst.src2))
    && (inst.dest.kind.KNone? || i.dst.size == ActualSize(inst.dest.size, Wide(s, ps)))
    && (inst.src1.kind.KNone? || i.src1.size == ActualSize(inst.src1.size, Wide(s, ps)))
    && (inst.src2.kind.KNone? || i.src2.size == ActualSize(inst.src2.size, Wide(s, ps)))
  }

  lemma FormDecoded(s: State, ps: seq<u8>, rest: seq<u8>, rm: Decoded, t: State, reg: RegIndex, m: nat, inst: Op)
    requires NothingPending(s) && HasOperands(s, ps, rest, m, inst)
    requires t == Skip(Prefixed(s, ps), m) && CodeIs(t, rest[m..])
    requires OpSize32(Prefixed(s, ps)) == Wide(s, ps) && AddrSize32(Prefixed(s, ps)) == WideAddress(s, ps)
    requires NamesRm(inst) ==> RmAt(s, ps, rest, rm, t)
    ensures DecodedAs(s, ps, rest, reg, m, inst, Form(t, rm, reg, inst))
  {
    hide CodeIs, RmAt, Denotes, RmPlace, HasRm, Meaning, TextOperand, TextBytes, BytesTaken, PlainOperand, ActualSize;
    var n := TextLength(s, ps, m, inst);
    OperandDenotes(s, ps, rest, rm, t, m, n, reg, inst.dest);
    OperandDenotes(s, ps, rest, rm, t, m, n, reg, inst.src1);
    OperandDenotes(s, ps, rest, rm, t, m, n, reg, inst.src2);
    FormExecutes(s, ps, m, rm, reg, inst);
    hide Prefixed;
  }

  // ----- A step over a text -----

  /** With a ModR/M byte: the step executes the instruction that the text gives, or ends with an undefined index. */
  lemma StepModrmText(s: State, ps: seq<u8>, opcode: u8, rest: seq<u8>, env: Env, inst: Op) returns (i: Instruction)
    requires At(s, ps, opcode, rest) && PlainOpcode(opcode) && UsesModrm(InstructionTable(opcode))
    requires HasRm(s, ps, rest) && Fixup(InstructionTable(opcode), RegOf(rest[0])) == Ok(inst)
    requires HasOperands(s, ps, rest, RmBytes(s, ps, rest), inst)
    ensures Step.Step(s, env) == if RmDecodes(s, ps, rest) then Finished(s, Execute(i, env)) else Halted(HostUndefined)
    ensures RmDecodes(s, ps, rest) ==> DecodedAs(s, ps, rest, RegOf(rest[0]), RmBytes(s, ps, rest), inst, i)
  {
    hide CodeIs, Execute, Form, Fixup, Prefixed, RmDecodes, Step.Step, Finished, Denotes, TextOperand, DecodedAs;
    hide InstructionTable, RmBytes, PlainOperand, TextBytes, PlainOpcode, TextAddress, RmPlace;
    var rm, t := StepWithModrm(s, ps, opcode, rest, env, inst);
    i := Form(t, rm, RegOf(rest[0]), inst);
    if RmDecodes(s, ps, rest) { FormDecoded(s, ps, rest, rm, t, RegOf(rest[0]), RmBytes(s, ps, rest), inst); }
  }

  /** Without one it always executes it. */
  lemma StepPlainText(s: State, ps: seq<u8>, opcode: u8, rest: seq<u8>, env: Env, inst: Op) returns (i: Instruction)
    requires At(s, ps, opcode, rest) && PlainOpcode(opcode) && !UsesModrm(inst) && InstructionTable(opcode) == inst
    requires Fixup(inst, 0) == Ok(inst) && HasOperands(s, ps, rest, 0, inst) && !NamesRm(inst)
    ensures Step.Step(s, env) == Finished(s, Execute(i, env)) && DecodedAs(s, ps, rest, 0, 0, inst, i)
  {
    hide CodeIs, Execute, Form, Fixup, Prefixed, Step.Step, Finished, Denotes, TextOperand, DecodedAs, InstructionTable;
    hide PlainOperand, TextBytes, PlainOpcode;
    StepWithoutModrm(s, ps, opcode, rest, env);
    SkipTwice(Prefixed(s, ps), 0, 0);
    assert rest[0..] == rest;
    i := Form(Prefixed(s, ps), NO_RM, 0, inst);
    FormDecoded(s, ps, rest, NO_RM, Prefixed(s, ps), 0, 0, inst);
  }
}
