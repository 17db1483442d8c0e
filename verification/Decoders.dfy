/** What both decoders make of any instruction, and exactly when they agree on its length; and the targets of
    branches. */
module Decoders {
  import opened Words
  import opened I386
  import opened Machine
  import opened Step
  import opened RunInvariants
  import opened Disassembler
  import Instructions

  // ----- The interpreter's length, read off the text -----

  /** The bytes the interpreter takes for an operand. */
  function Taken(op: Operand, wide: bool, wideAddress: bool): nat
  {
    match op.kind
    case KSimm | KImm | KIpRel | KFarPtr => ImmBytes(ActualSize(op.size, wide))
    case KOffset => if wideAddress then 4 else 2
    case _ => 0
  }

  function OperandsTaken(inst: Op, wide: bool, wideAddress: bool): nat
  {
    Taken(inst.dest, wide, wideAddress) + Taken(inst.src1, wide, wideAddress) + Taken(inst.src2, wide, wideAddress)
  }

  function RegFieldOf(code: seq<u8>, inst: Op): RegIndex { if UsesModrm(inst) && |code| > 0 then RegOf(code[0]) else 0 }

  /** Everything after the opcode, as the interpreter decodes it: the reg field may change the operands. */
  function BodyTaken(code: seq<u8>, inst: Op, wide: bool, wideAddress: bool): Result<nat>
  {
    var modrm :- ModrmLength(code, inst, wideAddress);
    var fixed :- Fixup(inst, RegFieldOf(code, inst));
    Ok(modrm + OperandsTaken(fixed, wide, wideAddress))
  }

  /** An instruction without prefixes: behind REP and REPNE stands an opcode of the one-byte table. */
  function Consumed(code: seq<u8>, wide: bool, wideAddress: bool): Result<nat>
  {
    if |code| == 0 then Halted(HostUndefined)
    else
      var inst := InstructionTable(code[0]);
      if inst.opType.OpExtended? || inst.opType.OpRepez? || inst.opType.OpRepne? then
        if |code| == 1 then Halted(HostUndefined)
        else Longer(BodyTaken(code[2..], SecondEntry(inst, code[1]), wide, wideAddress), 2)
      else Longer(BodyTaken(code[1..], inst, wide, wideAddress), 1)
  }

  function SecondEntry(first: Op, second: u8): Op
  {
    if first.opType.OpExtended? then ExtendedInstructionTable(second)
      else InstructionTable(second).(opType := first.opType)
  }

  lemma OperandTakes(s: State, rm: Decoded, reg: RegIndex, op: Operand, d: Decoded, t: State)
    requires DecodeOperand(s, rm, reg, op) == Ok((d, t))
    ensures t == Skip(s, Taken(op, OpSize32(s), AddrSize32(s)))
  {
    hide Code8, Code16, Code32, Skip, SignedImm, ImmValue, ActualSize, Wrap32, DecodedRm, ImmBytes, OpSize32,
      AddrSize32;
    SkipTwice(s, 0, 0);
  }

  lemma OperandsTake(s: State, rm: Decoded, reg: RegIndex, inst: Op, i: Instruction)
    requires DecodeOperands(s, rm, reg, inst) == Ok(i)
    ensures i.s.eip == i.s.oldEip == Skip(s, OperandsTaken(inst, OpSize32(s), AddrSize32(s))).eip && i.reg == reg
  {
    hide DecodeOperand, Skip, OpSize32, AddrSize32, Taken;
    var (w, a) := (OpSize32(s), AddrSize32(s));
    var (dst, s1) := DecodeOperand(s, rm, reg, inst.dest).value;
    OperandTakes(s, rm, reg, inst.dest, dst, s1);
    AddrSizeSkipped(s, Taken(inst.dest, w, a));
    var (src1, s2) := DecodeOperand(s1, rm, reg, inst.src1).value;
    OperandTakes(s1, rm, reg, inst.src1, src1, s2);
    AddrSizeSkipped(s1, Taken(inst.src1, w, a));
    var (src2, s3) := DecodeOperand(s2, rm, reg, inst.src2).value;
    OperandTakes(s2, rm, reg, inst.src2, src2, s3);
    SkipTwice(s, Taken(inst.dest, w, a), Taken(inst.src1, w, a));
    SkipTwice(s, Taken(inst.dest, w, a) + Taken(inst.src1, w, a), Taken(inst.src2, w, a));
  }

  /** For any entry of any table, without exception: what the interpreter consumes after the opcode. */
  lemma BodyConsumes(s: State, code: seq<u8>, inst: Op, n: nat, i: Instruction)
    requires CodeIs(s, code) && BodyTaken(code, inst, OpSize32(s), AddrSize32(s)) == Ok(n)
    requires Decode(s, inst) == Ok(i)
    ensures i.s.eip == i.s.oldEip == Wrap32(s.eip + n)
  {
    hide CodeIs, DecodeModrm, DecodeOperands, Fixup, ModrmLength, OpSize32, AddrSize32, OperandsTaken;
    var (wide, wideAddress) := (OpSize32(s), AddrSize32(s));
    var (reg, rm, t) := DecodeModrm(s, inst).value;
    var m := ModrmLength(code, inst, wideAddress).value;
    ModrmAgrees(s, code, inst, m, reg, rm, t);
    RegFieldIs(s, code, inst, m);
    AddrSizeSkipped(s, m);
    var fixed := Fixup(inst, reg).value;
    OperandsTake(t, rm, reg, fixed, i);
    SkipTwice(s, m, OperandsTaken(fixed, wide, wideAddress));
  }

  lemma RegFieldIs(s: State, code: seq<u8>, inst: Op, m: nat)
    requires CodeIs(s, code) && DecodeModrm(s, inst).Ok? && ModrmLength(code, inst, AddrSize32(s)) == Ok(m)
    ensures DecodeModrm(s, inst).value.0 == RegFieldOf(code, inst)
  {
    hide CodeIs, DecodeRm, Code8;
    if UsesModrm(inst) { SameByte(s, code); }
  }

  /** Where the listing's count for any entry differs from the interpreter's: in the operands alone. */
  lemma BodyDiffers(code: seq<u8>, inst: Op, wide: bool, wideAddress: bool, n: nat, m: nat)
    requires BodyLength(code, inst, wide, wideAddress) == Ok(n) && BodyTaken(code, inst, wide, wideAddress) == Ok(m)
    ensures var fixed := Fixup(inst, RegFieldOf(code, inst)).value;
            m - n == OperandsTaken(fixed, wide, wideAddress) - OperandsTaken(inst, wide, wideAddress)
                     + FarBytes(inst.dest, wide) + FarBytes(inst.src1, wide) + FarBytes(inst.src2, wide)
  {
    hide ModrmLength, Fixup, ActualSize, ImmBytes;
    OperandListed(inst.dest, wide, wideAddress);
    OperandListed(inst.src1, wide, wideAddress);
    OperandListed(inst.src2, wide, wideAddress);
  }

  /** The bytes of a far pointer, which the listing does not count. */
  function FarBytes(op: Operand, wide: bool): nat {
    if op.kind.KFarPtr? then ImmBytes(ActualSize(op.size, wide)) else 0
  }

  lemma OperandListed(op: Operand, wide: bool, wideAddress: bool)
    ensures OperandLength(op, wide, wideAddress).Ok? ==>
              OperandLength(op, wide, wideAddress).value + FarBytes(op, wide) == Taken(op, wide, wideAddress)
  {
    hide ActualSize, ImmBytes;
  }

  lemma BareConsumes(s: State, opcode: u8, rest: seq<u8>, n: nat, env: Env, t: State)
    requires CodeIs(s, rest) && RunBare(s, opcode, env) == Ok(t)
    requires Consumed([opcode] + rest, OpSize32(s), AddrSize32(s)) == Ok(n)
    ensures n > 0 && t.oldEip == Wrap32(s.eip + n - 1)
  {
    hide CodeIs, SelectEntry, Decode, Execute, BodyTaken, Consumed, OpSize32, AddrSize32, Skip, WellPlaced, SafeDest,
      InstructionTable;
    var (inst, u) := SelectEntry(s, opcode);
    var k := if TwoBytes(opcode) then 1 else 0;
    SelectionConsumes(s, opcode, rest, n);
    var i := Decode(u, inst).value;
    CodeShifts(s, rest, k);
    AddrSizeSkipped(s, k);
    BodyConsumes(u, rest[k..], inst, n - k - 1, i);
    SelectKeeps(s, opcode);
    DecodeKeeps(u, inst, i);
    ExecuteKeeps(i, env, t);
    SkippedTo(s, k, n - k - 1);
  }

  predicate TwoBytes(opcode: u8)
  {
    var t := InstructionTable(opcode).opType;
    t.OpExtended? || t.OpRepez? || t.OpRepne?
  }

  lemma SelectionConsumes(s: State, opcode: u8, rest: seq<u8>, n: nat)
    requires CodeIs(s, rest) && Consumed([opcode] + rest, OpSize32(s), AddrSize32(s)) == Ok(n)
    ensures var k := if TwoBytes(opcode) then 1 else 0;
            && k <= |rest| && SelectEntry(s, opcode).1 == Skip(s, k) && n > k
            && BodyTaken(rest[k..], SelectEntry(s, opcode).0, OpSize32(s), AddrSize32(s)) == Ok(n - k - 1)
  {
    hide InstructionTable, ExtendedInstructionTable, BodyTaken, CodeIs, Code8, Skip, OpSize32, AddrSize32;
    var code := [opcode] + rest;
    assert code[1..] == rest && rest[0..] == rest;
    SkipTwice(s, 0, 0);
    if TwoBytes(opcode) {
      assert code[2..] == rest[1..] && code[1] == rest[0];
      SameByte(s, rest);
    }
  }

  // ----- Any string of prefixes -----

  predicate AllPrefixes(ps: seq<u8>) { forall i :: 0 <= i < |ps| ==> IsPrefix(ps[i]) }

  /** How often the listing has toggled the operand size, and the address size, modulo 2. */
  function TogglesSize(ps: seq<u8>): bool { if ps == [] then false else TogglesSize(ps[1..]) != (ps[0] == 0x66) }

  function TogglesAddress(ps: seq<u8>): bool
  {
    if ps == [] then false else TogglesAddress(ps[1..]) != (ps[0] == 0x67 || SegmentPrefix(ps[0]))
  }

  lemma {:induction false} PrefixesListed(code: seq<u8>, k: nat, vaddr: int, wide: bool, wideAddress: bool)
    requires k < |code| && AllPrefixes(code[..k])
    ensures var (w, a) := (wide != TogglesSize(code[..k]), wideAddress != TogglesAddress(code[..k]));
            && Length(code, wide, wideAddress) == Longer(Length(code[k..], w, a), k)
            && (Length(code, wide, wideAddress).Ok? ==>
              Shows(code, vaddr, wide, wideAddress) == Shows(code[k..], vaddr + k, w, a))
    decreases k
  {
    hide Length, Shows, IsPrefix;
    if k == 0 {
      assert code[0..] == code;
      var r := Length(code, wide, wideAddress);
      assert Longer(r, 0) == r;
    } else {
      var (p, tail) := (code[0], code[1..]);
      var (w, a) := (wide != (p == 0x66), wideAddress != (p == 0x67 || SegmentPrefix(p)));
      assert p == code[..k][0];
      OnePrefixListed(code, vaddr, wide, wideAddress);
      assert code[..k] == [p] + tail[..k - 1] && code[k..] == tail[k - 1..];
      TailIsPrefixes(p, tail[..k - 1]);
      PrefixesListed(tail, k - 1, vaddr + 1, w, a);
    }
  }

  lemma TailIsPrefixes(p: u8, ps: seq<u8>)
    requires AllPrefixes([p] + ps)
    ensures AllPrefixes(ps)
  {
    hide IsPrefix;
    forall i | 0 <= i < |ps| ensures IsPrefix(ps[i]) {
      assert ([p] + ps)[i + 1] == ps[i];
    }
  }

  lemma OnePrefixListed(code: seq<u8>, vaddr: int, wide: bool, wideAddress: bool)
    requires |code| > 0 && IsPrefix(code[0])
    ensures var (p, tail) := (code[0], code[1..]);
            var (w, a) := (wide != (p == 0x66), wideAddress != (p == 0x67 || SegmentPrefix(p)));
            && Length(code, wide, wideAddress) == Longer(Length(tail, w, a), 1)
            && (Length(code, wide, wideAddress).Ok? ==>
              Shows(code, vaddr, wide, wideAddress) == Shows(tail, vaddr + 1, w, a))
  {
    PrefixBytes(code[0]);
    hide InstructionTable, BodyLength, BodyShows;
  }

  /** The two lengths of an instruction with any prefixes: the interpreter takes the sizes that occur among them, the
      listing the sizes they toggle. They agree exactly when the instruction behind the prefixes comes to the same. */
  lemma DecodersCompared(s: State, code: seq<u8>, k: nat, n: nat, m: nat, env: Env, t: State)
    requires NothingPending(s) && CodeIs(s, code) && k < |code| < TWO32 && AllPrefixes(code[..k]) && !IsPrefix(code[k])
    requires Length(code, s.segs[CS].use32, s.segs[CS].use32) == Ok(n)
    requires Consumed(code[k..], s.segs[CS].use32 != (0x66 in code[..k]), s.segs[CS].use32 != (0x67 in code[..k])) ==
        Ok(m)
    requires k + m < TWO32 && Step.Step(s, env) == Ok(t)
    ensures t.oldEip == Wrap32(s.eip + k + m)
    ensures t.oldEip == Wrap32(s.eip + n) <==>
              Length(code[k..], s.segs[CS].use32 != TogglesSize(code[..k]),
                s.segs[CS].use32 != TogglesAddress(code[..k])) == Ok(m)
  {
    hide CodeIs, IsPrefix, Length, Consumed, Shows, Step.Step, RunBare, Wrap32;
    var b, r := StepBehindPrefixes(s, code, k, env, t);
    assert code[k..] == [code[k]] + code[k + 1..];
    BareConsumes(b, code[k], code[k + 1..], m, env, r);
    WrapTwice(s.eip + k + 1, m - 1);
    PrefixesListed(code, k, 0, s.segs[CS].use32, s.segs[CS].use32);
    LengthInside(code, s.segs[CS].use32, s.segs[CS].use32, n);
    SameEnd(s.eip, k + m, n);
  }

  /** The state in which the instruction behind the prefixes runs, its opcode fetched: the step returns as that does. */
  lemma StateBehindPrefixes(s: State, code: seq<u8>, k: nat, env: Env) returns (b: State)
    requires NothingPending(s) && CodeIs(s, code) && k < |code| < TWO32 && AllPrefixes(code[..k]) && !IsPrefix(code[k])
    ensures match RunBare(b, code[k], env)
            case Ok(r) => Step.Step(s, env).Ok? && Step.Step(s, env).value.eip == r.eip
              && Step.Step(s, env).value.oldEip == r.oldEip
            case Halted(_) => Step.Step(s, env).Halted?
    ensures CodeIs(b, code[k + 1..]) && b.eip == Wrap32(s.eip + k + 1)
    ensures b.regs == s.regs && b.eflags == s.eflags && b.segs == s.segs && b.opOverride == (0x66 in code[..k])
    ensures OpSize32(b) == (s.segs[CS].use32 != (0x66 in code[..k]))
        && AddrSize32(b) == (s.segs[CS].use32 != (0x67 in code[..k]))
  {
    hide CodeIs, IsPrefix, Step.Step, RunBare, PrefixedCode, OverridesSegment, LastSegment, Counted, Wrap32;
    var ps := code[..k];
    PrefixesInCode(s, code, k);
    StepScansPrefixes(s, ps, code[k], env);
    b := s.(eip := Wrap32(s.eip + k + 1), stepsRun := s.stepsRun + Counted(ps) + 1,
            opOverride := 0x66 in ps, addrOverride := 0x67 in ps,
            overridingSgmt := OverridesSegment(ps), sgmtOverride := LastSegment(ps, DS));
    CodeShifts(s, code, k + 1);
    CodeByFields(Skip(s, k + 1), b, code[k + 1..]);
    SizesBehindPrefixes(s, b, ps);
  }

  /** The same for a step that returns, with the state `r` it comes to. */
  lemma StepBehindPrefixes(s: State, code: seq<u8>, k: nat, env: Env, t: State) returns (b: State, r: State)
    requires NothingPending(s) && CodeIs(s, code) && k < |code| < TWO32 && AllPrefixes(code[..k]) && !IsPrefix(code[k])
    requires Step.Step(s, env) == Ok(t)
    ensures RunBare(b, code[k], env) == Ok(r) && t.eip == r.eip && t.oldEip == r.oldEip
    ensures CodeIs(b, code[k + 1..]) && b.eip == Wrap32(s.eip + k + 1)
    ensures b.regs == s.regs && b.eflags == s.eflags && b.segs == s.segs && b.opOverride == (0x66 in code[..k])
    ensures OpSize32(b) == (s.segs[CS].use32 != (0x66 in code[..k]))
        && AddrSize32(b) == (s.segs[CS].use32 != (0x67 in code[..k]))
  {
    hide CodeIs, IsPrefix, Step.Step, RunBare, Wrap32, OpSize32, AddrSize32, NothingPending, AllPrefixes;
    b := StateBehindPrefixes(s, code, k, env);
    r := RunBare(b, code[k], env).value;
  }

  lemma {:induction false} LengthInside(code: seq<u8>, wide: bool, wideAddress: bool, n: nat)
    requires Length(code, wide, wideAddress) == Ok(n)
    ensures n <= |code|
    decreases code
  {
    hide InstructionTable, ExtendedInstructionTable, ModrmLength, OperandLength;
    var (inst, rest) := (InstructionTable(code[0]), code[1..]);
    if inst.opType.OpLock? || inst.opType.OpRepez?
      || inst.opType.OpRepne? { LengthInside(rest, wide, wideAddress, n - 1); }
    else if inst.opType.OpSizeOverride? { LengthInside(rest, !wide, wideAddress, n - 1); }
    else if inst.opType.OpAddrOverride?
      || inst.opType.OpSegmentOverride? { LengthInside(rest, wide, !wideAddress, n - 1); }
  }

  lemma SameEnd(e: u32, x: nat, y: nat)
    requires x < TWO32 && y < TWO32
    ensures Wrap32(e + x) == Wrap32(e + y) <==> x == y
  {
  }

  lemma PrefixesInCode(s: State, code: seq<u8>, k: nat)
    requires CodeIs(s, code) && k < |code| && AllPrefixes(code[..k]) && !IsPrefix(code[k])
    ensures PrefixedCode(s, code[..k], code[k])
  {
    hide CodeIs, Skip, Code8, IsPrefix;
    forall j: nat | j <= k ensures Code8(Skip(s, j)) == code[j] {
      CodeShifts(s, code, j);
      SameByte(Skip(s, j), code[j..]);
    }
    forall j | 0 <= j < k ensures Code8(Skip(s, j)) == code[..k][j] && IsPrefix(code[..k][j]) {
    }
  }

  /** At the same sizes, and away from REP before another prefix, the two counts of the one-byte table differ by what
      the listing leaves out: the immediate of the TEST form of F6 and F7, and far pointers. */
  function Unlisted(b: u8, reg: RegIndex, wide: bool): nat
  {
    if b == 0x9A || b == 0xEA then (if wide then 0 else 4)
    else if (b == 0xF6 || b == 0xF7) && reg == ALU_TEST then (if b == 0xF6 then 1 else if wide then 4 else 2)
    else 0
  }

  lemma TableUnlisted(b: u8, code: seq<u8>, wide: bool, wideAddress: bool, n: nat, m: nat)
    requires BodyLength(code, InstructionTable(b), wide, wideAddress) == Ok(n)
    requires BodyTaken(code, InstructionTable(b), wide, wideAddress) == Ok(m)
    ensures m == n + Unlisted(b, RegFieldOf(code, InstructionTable(b)), wide)
  {
    hide BodyLength, BodyTaken, Fixup, OperandsTaken, FarBytes, Unlisted;
    BodyDiffers(code, InstructionTable(b), wide, wideAddress, n, m);
    FixupSucceeds(code, InstructionTable(b), wide, wideAddress);
    EntryUnlisted(b, RegFieldOf(code, InstructionTable(b)), wide, wideAddress);
  }

  lemma FixupSucceeds(code: seq<u8>, inst: Op, wide: bool, wideAddress: bool)
    requires BodyTaken(code, inst, wide, wideAddress).Ok?
    ensures Fixup(inst, RegFieldOf(code, inst)).Ok?
  {
    hide Fixup;
  }

  lemma EntryUnlisted(b: u8, reg: RegIndex, wide: bool, wideAddress: bool)
    requires Fixup(InstructionTable(b), reg).Ok?
    ensures var (inst, fixed) := (InstructionTable(b), Fixup(InstructionTable(b), reg).value);
            OperandsTaken(fixed, wide, wideAddress) - OperandsTaken(inst, wide, wideAddress)
              + FarBytes(inst.dest, wide) + FarBytes(inst.src1, wide) + FarBytes(inst.src2, wide) ==
                Unlisted(b, reg, wide)
  {
    if b == 0x9A || b == 0xEA || b == 0xF6 || b == 0xF7 {
      SpecialEntries(b, reg, wide, wideAddress);
    } else {
      TableComparable(b);
      hide InstructionTable, Taken;
    }
  }

  lemma SpecialEntries(b: u8, reg: RegIndex, wide: bool, wideAddress: bool)
    requires b == 0x9A || b == 0xEA || b == 0xF6 || b == 0xF7
    requires Fixup(InstructionTable(b), reg).Ok?
    ensures var (inst, fixed) := (InstructionTable(b), Fixup(InstructionTable(b), reg).value);
            OperandsTaken(fixed, wide, wideAddress) - OperandsTaken(inst, wide, wideAddress)
              + FarBytes(inst.dest, wide) + FarBytes(inst.src1, wide) + FarBytes(inst.src2, wide) ==
                Unlisted(b, reg, wide)
  {
    SpecialRows(b);
    hide InstructionTable;
  }

  lemma SpecialRows(b: u8)
    ensures b == 0x9A ==> InstructionTable(b) == Op(OpCallFar, 0, 0, NONE, Operand(KFarPtr, Sz3248, 0), NONE)
    ensures b == 0xEA ==> InstructionTable(b) == Op(OpJumpFar, 0, 0, NONE, Operand(KFarPtr, Sz3248, 0), NONE)
    ensures b == 0xF6 || b == 0xF7 ==>
        InstructionTable(b) == Op(OpAluSpecial, ALU_MULTI, USE_MODRM + WEIRD, NONE, Rm(ByteOrWord(b)), NONE)
  {
  }

  /** The same for a whole instruction without prefixes: REP counts its opcode's far pointer only, and the two-byte
      opcodes leave nothing out. */
  lemma SameSizes(code: seq<u8>, wide: bool, wideAddress: bool, n: nat, m: nat)
    requires |code| > 0 && !IsPrefix(code[0])
    requires RepPrefix(code[0]) ==> |code| > 1 && !IsPrefix(code[1]) && OpcodeTail(code[1]) == 0
    requires Length(code, wide, wideAddress) == Ok(n) && Consumed(code, wide, wideAddress) == Ok(m)
    ensures m == n + if code[0] == 0x0F then 0
                     else if RepPrefix(code[0]) then Unlisted(if FarPointer(code[1]) then code[1] else 0, 0, wide)
                     else Unlisted(code[0], RegFieldOf(code[1..], InstructionTable(code[0])), wide)
  {
    hide InstructionTable, ExtendedInstructionTable, BodyLength, BodyTaken, Unlisted, Length, IsPrefix;
    var (b, rest) := (code[0], code[1..]);
    assert code == [b] + rest;
    TableComparable(b);
    if b == 0x0F {
      CountsExtended(rest, wide, wideAddress);
      assert code[2..] == rest[1..];
      ExtendedUnlisted(rest[0], rest[1..], wide, wideAddress, n - 2, m - 2);
    } else if RepPrefix(b) {
      CountsRep(b, rest, wide, wideAddress);
      assert code[2..] == rest[1..];
      RepUnlisted(b, rest[0], rest[1..], wide, wideAddress, n - 2, m - 2);
    } else {
      CountsPlain(b, rest, wide, wideAddress);
      TableUnlisted(b, rest, wide, wideAddress, n - 1, m - 1);
    }
  }

  lemma ExtendedUnlisted(b: u8, code: seq<u8>, wide: bool, wideAddress: bool, n: int, m: int)
    requires BodyLength(code, ExtendedInstructionTable(b), wide, wideAddress) == Ok(n)
    requires BodyTaken(code, ExtendedInstructionTable(b), wide, wideAddress) == Ok(m)
    ensures n == m
  {
    hide ModrmLength, BodyLength, BodyTaken, Fixup, OperandsTaken, ExtendedInstructionTable, FarBytes;
    ExtendedRow(b, RegFieldOf(code, ExtendedInstructionTable(b)), wide);
    BodyDiffers(code, ExtendedInstructionTable(b), wide, wideAddress, n, m);
  }

  lemma ExtendedRow(b: u8, reg: RegIndex, wide: bool)
    ensures var inst := ExtendedInstructionTable(b);
            && Fixup(inst, reg) == Ok(inst)
            && FarBytes(inst.dest, wide) == FarBytes(inst.src1, wide) == FarBytes(inst.src2, wide) == 0
  {
  }

  lemma RepUnlisted(first: u8, b: u8, code: seq<u8>, wide: bool, wideAddress: bool, n: int, m: int)
    requires RepPrefix(first) && BodyLength(code, InstructionTable(b), wide, wideAddress) == Ok(n)
    requires BodyTaken(code, SecondEntry(InstructionTable(first), b), wide, wideAddress) == Ok(m)
    ensures m == n + Unlisted(if FarPointer(b) then b else 0, 0, wide)
  {
    TableComparable(first);
    TableComparable(b);
    SpecialRows(b);
    hide InstructionTable, BodyLength, Taken, ModrmLength;
    var inst := InstructionTable(b).(opType := InstructionTable(first).opType);
    BodyByOperands(code, InstructionTable(b), inst.opType, wide, wideAddress);
    BodyDiffers(code, inst, wide, wideAddress, n, m);
  }

  // ----- Where they disagree -----

  /** In 16-bit code a segment override makes the listing read ModR/M with 32-bit addresses: 26 8B 06 and a word is
      listed as three bytes and run as five. */
  lemma SegmentOverrideMisleads(s: State, lo: u8, hi: u8, env: Env)
    requires NothingPending(s) && !s.segs[CS].use32 && CodeIs(s, [0x26, 0x8B, 0x06, lo, hi])
    ensures Length([0x26, 0x8B, 0x06, lo, hi], false, false) == Ok(3)
    ensures Step.Step(s, env).Ok? && Step.Step(s, env).value.oldEip == Wrap32(s.eip + 5)
  {
    hide Length, Consumed, CodeIs, Step.Step, IsPrefix, Shows, RunBare, Code8, OpSize32, AddrSize32;
    var code := [0x26, 0x8B, 0x06, lo, hi];
    assert code[1..] == [0x8B, 0x06, lo, hi] && code[..1] == [0x26] && code[2..] == [0x06, lo, hi];
    PrefixRows();
    LoadLengths(lo, hi);
    TogglesOf26();
    PrefixesListed(code, 1, 0, false, false);
    var b := StateBehindPrefixes(s, code, 1, env);
    SameByte(b, code[2..]);
    LoadReturns(b, env);
    DecodersCompared(s, code, 1, 3, 4, env, Step.Step(s, env).value);
  }

  /** A load of a word from the address in the code always returns. */
  lemma LoadReturns(s: State, env: Env)
    requires Code8(s) == 0x06 && !OpSize32(s) && !AddrSize32(s)
    ensures RunBare(s, 0x8B, env).Ok?
  {
    hide Code8, OpSize32, AddrSize32, Execute, InstructionTable, DecodeOperands, Instructions.Form, DecodeRm16;
    var inst := Op(OpMov, 0, USE_MODRM, RegField(Sz1632), Rm(Sz1632), NONE);
    LoadRow();
    var (rm, t) := DecodeRm16(Skip(s, 1), 0x06);
    DirectAddress(Skip(s, 1), rm, t);
    AddrSizeSkipped(s, 1);
    Instructions.OperandsDecode(t, rm, 0, inst);
    assert Decode(s, inst) == Ok(Instructions.Form(t, rm, 0, inst));
    LoadRuns(t, rm, inst, env);
  }

  lemma DirectAddress(s: State, rm: Decoded, t: State)
    requires (rm, t) == DecodeRm16(s, 0x06)
    ensures rm.kind.DMem? && OpSize32(t) == OpSize32(s)
  {
    hide Code16, Code8;
  }

  lemma LoadRuns(t: State, rm: Decoded, inst: Op, env: Env)
    requires inst == Op(OpMov, 0, USE_MODRM, RegField(Sz1632), Rm(Sz1632), NONE) && rm.kind.DMem? && !OpSize32(t)
    ensures Execute(Instructions.Form(t, rm, 0, inst), env).Ok?
  {
    hide Read16, Linear, OpSize32;
  }

  lemma PrefixRows()
    ensures IsPrefix(0x26) && IsPrefix(0x66) && !IsPrefix(0x8B) && !IsPrefix(0xB8)
  {
    PrefixBytes(0x26);
    PrefixBytes(0x66);
    PrefixBytes(0x8B);
    PrefixBytes(0xB8);
    hide InstructionTable;
  }

  lemma TogglesOf26()
    ensures !TogglesSize([0x26]) && TogglesAddress([0x26]) && !TogglesSize([0x66, 0x66])
        && !TogglesAddress([0x66, 0x66])
  {
    assert [0x26][1..] == [] && [0x66, 0x66][1..] == [0x66] && [0x66][1..] == [];
  }

  lemma LoadLengths(lo: u8, hi: u8)
    ensures Length([0x8B, 0x06, lo, hi], false, true) == Ok(2)
    ensures Consumed([0x8B, 0x06, lo, hi], false, false) == Ok(4)
  {
    LoadRow();
    hide InstructionTable;
    assert [0x8B, 0x06, lo, hi][1..] == [0x06, lo, hi] && [0x06, lo, hi][1..] == [lo, hi];
  }

  lemma LoadRow()
    ensures InstructionTable(0x8B) == Op(OpMov, 0, USE_MODRM, RegField(Sz1632), Rm(Sz1632), NONE)
    ensures InstructionTable(0xB8) == Op(OpMov, 0, 0, ConstReg(Sz1632, EAX), Imm(Sz1632), NONE)
  {
  }

  /** A second 66 is undone in the listing alone: 66 66 B8 and a dword is listed as five bytes and run as seven. */
  lemma RepeatedSizeMisleads(s: State, b0: u8, b1: u8, b2: u8, b3: u8, env: Env)
    requires NothingPending(s) && !s.segs[CS].use32 && CodeIs(s, [0x66, 0x66, 0xB8, b0, b1, b2, b3])
    ensures Length([0x66, 0x66, 0xB8, b0, b1, b2, b3], false, false) == Ok(5)
    ensures Step.Step(s, env).Ok? && Step.Step(s, env).value.oldEip == Wrap32(s.eip + 7)
  {
    hide Length, Consumed, CodeIs, Step.Step, IsPrefix, Shows, RunBare, OpSize32, AddrSize32;
    var code := [0x66, 0x66, 0xB8, b0, b1, b2, b3];
    assert code[2..] == [0xB8, b0, b1, b2, b3] && code[..2] == [0x66, 0x66];
    PrefixRows();
    ConstantLengths(b0, b1, b2, b3);
    TogglesOf26();
    PrefixesListed(code, 2, 0, false, false);
    assert 0x66 in code[..2];
    var b := StateBehindPrefixes(s, code, 2, env);
    ConstantReturns(b, env);
    DecodersCompared(s, code, 2, 5, 5, env, Step.Step(s, env).value);
  }

  /** A load of a constant always returns. */
  lemma ConstantReturns(s: State, env: Env)
    requires OpSize32(s)
    ensures RunBare(s, 0xB8, env).Ok?
  {
    hide OpSize32, Execute, InstructionTable, DecodeOperands, Instructions.Form;
    var inst := Op(OpMov, 0, 0, ConstReg(Sz1632, EAX), Imm(Sz1632), NONE);
    LoadRow();
    Instructions.OperandsDecode(s, NO_RM, 0, inst);
    assert Decode(s, inst) == Ok(Instructions.Form(s, NO_RM, 0, inst));
    ConstantRuns(s, inst, env);
  }

  lemma ConstantRuns(s: State, inst: Op, env: Env)
    requires inst == Op(OpMov, 0, 0, ConstReg(Sz1632, EAX), Imm(Sz1632), NONE) && OpSize32(s)
    ensures Execute(Instructions.Form(s, NO_RM, 0, inst), env).Ok?
  {
    hide OpSize32, Code32;
  }

  lemma ConstantLengths(b0: u8, b1: u8, b2: u8, b3: u8)
    ensures Length([0xB8, b0, b1, b2, b3], false, false) == Ok(3)
    ensures Consumed([0xB8, b0, b1, b2, b3], true, false) == Ok(5)
  {
    LoadRow();
    hide InstructionTable;
    assert [0xB8, b0, b1, b2, b3][1..] == [b0, b1, b2, b3];
  }

  // ----- Straight-line text -----

  function PrefixCount(code: seq<u8>): (k: nat)
    ensures k <= |code| && AllPrefixes(code[..k]) && (k < |code| ==> !IsPrefix(code[k]))
  {
    if code == [] || !IsPrefix(code[0]) then 0
    else
      assert code[..PrefixCount(code[1..]) + 1][1..] == code[1..][..PrefixCount(code[1..])];
      PrefixCount(code[1..]) + 1
  }

  /** What the interpreter takes for the instruction at the start of the text, prefixes included. */
  function InterpreterLength(code: seq<u8>, wide: bool): Result<nat>
  {
    var k := PrefixCount(code);
    if k == |code| then Halted(HostUndefined)
    else Longer(Consumed(code[k..], wide != (0x66 in code[..k]), wide != (0x67 in code[..k])), k)
  }

  /** Both lengths can be read off the text; the interpreter moves by its own, and so as the listing shows exactly when
      the two are the same. */
  lemma LengthsDecide(s: State, code: seq<u8>, n: nat, m: nat, env: Env, t: State)
    requires NothingPending(s) && CodeIs(s, code) && |code| < TWO32 && m < TWO32 && Step.Step(s, env) == Ok(t)
    requires Length(code, s.segs[CS].use32, s.segs[CS].use32) == Ok(n)
        && InterpreterLength(code, s.segs[CS].use32) == Ok(m)
    ensures t.oldEip == Wrap32(s.eip + m) && (t.oldEip == Wrap32(s.eip + n) <==> m == n)
  {
    hide CodeIs, Length, Consumed, Step.Step, TogglesSize, TogglesAddress, Shows, IsPrefix, Wrap32;
    var k := PrefixCount(code);
    DecodersCompared(s, code, k, n, m - k, env, t);
    PrefixesListed(code, k, 0, s.segs[CS].use32, s.segs[CS].use32);
    LengthInside(code, s.segs[CS].use32, s.segs[CS].use32, n);
  }

  /** Where no size is toggled back and no REP stands before another prefix, the listing comes to what the interpreter
      takes but for the bytes it leaves out. */
  lemma PlainTextAgrees(code: seq<u8>, wide: bool, n: nat, m: nat)
    requires Length(code, wide, wide) == Ok(n) && InterpreterLength(code, wide) == Ok(m)
    requires var ps := code[..PrefixCount(code)]; TogglesSize(ps) == (0x66 in ps) && TogglesAddress(ps) == (0x67 in ps)
    requires var rest := code[PrefixCount(code)..];
             RepPrefix(rest[0]) ==> |rest| > 1 && !IsPrefix(rest[1]) && OpcodeTail(rest[1]) == 0
    ensures var (ps, rest) := (code[..PrefixCount(code)], code[PrefixCount(code)..]);
            m == n + if rest[0] == 0x0F then 0
                     else if RepPrefix(rest[0]) then Unlisted(if FarPointer(rest[1]) then rest[1]
                       else 0, 0, wide != (0x66 in ps))
                     else Unlisted(rest[0], RegFieldOf(rest[1..], InstructionTable(rest[0])), wide != (0x66 in ps))
  {
    hide InstructionTable, Length, Consumed, Unlisted, IsPrefix, Shows, TogglesSize, TogglesAddress;
    var k := PrefixCount(code);
    PrefixesListed(code, k, 0, wide, wide);
    SameSizes(code[k..], wide != (0x66 in code[..k]), wide != (0x67 in code[..k]), n - k, m - k);
  }

  ghost predicate Boundary(states: seq<State>, code: seq<u8>, start: u32, j: nat, wide: bool)
  {
    j < |states| && Sweep(code, j, wide).Ok? && states[j].eip == Wrap32(start + Sweep(code, j, wide).value)
  }

  /** The two decoders come to the same length where the sweep stands after `j` instructions. */
  ghost predicate AgreeAt(code: seq<u8>, j: nat, wide: bool)
  {
    && Sweep(code, j, wide).Ok? && Sweep(code, j, wide).value <= |code|
    && InterpreterLength(code[Sweep(code, j, wide).value..], wide) ==
      Length(code[Sweep(code, j, wide).value..], wide, wide)
  }

  ghost predicate Readable(code: seq<u8>, j: nat, wide: bool)
  {
    && Sweep(code, j, wide).Ok? && Sweep(code, j, wide).value <= |code|
    && Length(code[Sweep(code, j, wide).value..], wide, wide).Ok?
    && InterpreterLength(code[Sweep(code, j, wide).value..], wide).Ok?
    && InterpreterLength(code[Sweep(code, j, wide).value..], wide).value < TWO32
  }

  /** The linear sweep over any text visits the instruction boundaries of straight-line execution exactly when the two
      decoders agree at each place it stands. */
  lemma {:induction false} SweepVisitsExactly(states: seq<State>, code: seq<u8>, start: u32, env: Env, k: nat)
    requires StraightLine(states, code, start, env) && k < |states| && |code| < TWO32
    requires forall j :: 0 <= j < k ==> Readable(code, j, states[0].segs[CS].use32)
    ensures (forall j :: 0 <= j <= k ==> Boundary(states, code, start, j, states[0].segs[CS].use32))
       <==> (forall j :: 0 <= j < k ==> AgreeAt(code, j, states[0].segs[CS].use32))
    decreases k
  {
    hide Length, Step.Step, InterpreterLength, Wrap32, Sweep, StraightLine, Boundary, AgreeAt, Readable;
    var wide := states[0].segs[CS].use32;
    if k == 0 {
      FirstBoundary(states, code, start, env);
    } else {
      SweepVisitsExactly(states, code, start, env, k - 1);
      if forall j :: 0 <= j < k ==> Boundary(states, code, start, j, wide) {
        NextBoundary(states, code, start, env, k);
      }
      if forall j :: 0 <= j <= k ==> Boundary(states, code, start, j, wide) {
        assert forall j :: 0 <= j <= k - 1 ==> Boundary(states, code, start, j, wide);
      }
    }
  }

  lemma FirstBoundary(states: seq<State>, code: seq<u8>, start: u32, env: Env)
    requires StraightLine(states, code, start, env)
    ensures Boundary(states, code, start, 0, states[0].segs[CS].use32)
  {
    hide Step.Step;
    SweepStarts(code, states[0].segs[CS].use32);
    WrapSmall(start);
  }

  lemma NextBoundary(states: seq<State>, code: seq<u8>, start: u32, env: Env, k: nat)
    requires StraightLine(states, code, start, env) && 0 < k < |states| && |code| < TWO32
    requires Readable(code, k - 1, states[0].segs[CS].use32)
        && Boundary(states, code, start, k - 1, states[0].segs[CS].use32)
    ensures Boundary(states, code, start, k, states[0].segs[CS].use32) <==>
        AgreeAt(code, k - 1, states[0].segs[CS].use32)
  {
    hide Length, Step.Step, InterpreterLength, CodeIs, NothingPending, Wrap32, StraightLine, Sweep;
    var wide := states[0].segs[CS].use32;
    StepOfLine(states, code, start, env, k);
    var at := Sweep(code, k - 1, wide).value;
    var (n, m) := (Length(code[at..], wide, wide).value, InterpreterLength(code[at..], wide).value);
    SweepUnfolds(code, k, wide, at);
    var s := states[k - 1];
    CodeShifts(s.(eip := start), code, at);
    CodeByFields(Skip(s.(eip := start), at), s, code[at..]);
    LengthsDecide(s, code[at..], n, m, env, states[k]);
    WrapTwice(start + at, n);
    assert start + at + n == start + (n + at);
  }

  // ----- The listing ends -----

  predicate Listable(op: Operand)
  {
    op.kind.KSimm? || op.kind.KImm? || op.kind.KIpRel? ==> FlagSize(op.size) || op.size == Sz1632
  }

  predicate ListableEntry(inst: Op) { Listable(inst.dest) && Listable(inst.src1) && Listable(inst.src2) }

  lemma TableListable(b: u8)
    ensures ListableEntry(InstructionTable(b)) && ListableEntry(ExtendedInstructionTable(b))
  {
    hide Rows00To3F, Rows40To7F, Rows80ToBF, RowsC0ToFF, ListableEntry;
    ExtendedListable(b);
    if b < 0x40 { Listable0(b); } else if b < 0x80 { Listable4(b); } else if b < 0xC0 { Listable8(b); }
      else { ListableC(b); }
  }

  lemma Listable0(b: u8)
    requires b < 0x40
    ensures ListableEntry(Rows00To3F(b))
  {
  }

  lemma Listable4(b: u8)
    requires 0x40 <= b < 0x80
    ensures ListableEntry(Rows40To7F(b))
  {
  }

  lemma Listable8(b: u8)
    requires 0x80 <= b < 0xC0
    ensures ListableEntry(Rows80ToBF(b))
  {
  }

  lemma ListableC(b: u8)
    requires 0xC0 <= b
    ensures ListableEntry(RowsC0ToFF(b))
  {
  }

  lemma ExtendedListable(b: u8)
    ensures ListableEntry(ExtendedInstructionTable(b))
  {
  }

  /** dis386 never spins: on any text it comes to a length, or else runs off the end of the text. */
  lemma {:induction false} ListingNeverSpins(code: seq<u8>, wide: bool, wideAddress: bool)
    ensures Length(code, wide, wideAddress).Ok? || Length(code, wide, wideAddress) == Halted(HostUndefined)
    decreases code
  {
    hide InstructionTable, ExtendedInstructionTable, BodyLength;
    if code != [] {
      var (inst, rest) := (InstructionTable(code[0]), code[1..]);
      TableListable(code[0]);
      match inst.opType
      case OpLock | OpRepez | OpRepne => ListingNeverSpins(rest, wide, wideAddress);
      case OpSizeOverride => ListingNeverSpins(rest, !wide, wideAddress);
      case OpAddrOverride | OpSegmentOverride => ListingNeverSpins(rest, wide, !wideAddress);
      case OpExtended =>
        if rest != [] {
          TableListable(rest[0]);
          BodyNeverSpins(rest[1..], ExtendedInstructionTable(rest[0]), wide, wideAddress);
        }
      case _ => BodyNeverSpins(rest, inst, wide, wideAddress);
    }
  }

  lemma BodyNeverSpins(code: seq<u8>, inst: Op, wide: bool, wideAddress: bool)
    requires ListableEntry(inst)
    ensures BodyLength(code, inst, wide, wideAddress).Ok? || BodyLength(code, inst, wide, wideAddress) ==
        Halted(HostUndefined)
  {
    hide Rm16Length, Rm32Length;
    RmNeverSpins(code, inst, wideAddress);
  }

  lemma RmNeverSpins(code: seq<u8>, inst: Op, wideAddress: bool)
    ensures ModrmLength(code, inst, wideAddress).Ok? || ModrmLength(code, inst, wideAddress) == Halted(HostUndefined)
  {
  }

  // ----- Branches -----

  /** A jump, call or loop: one relative operand and nothing else. */
  predicate BranchEntry(inst: Op)
  {
    && inst.src1.kind.KIpRel? && (inst.src1.size == Sz8 || inst.src1.size == Sz1632) && inst.dest == NONE
      && inst.src2 == NONE && !UsesModrm(inst)
    && (inst.opType.OpCallNear? || inst.opType.OpJump? || inst.opType.OpLoop?)
  }

  predicate BranchRow(inst: Op) { inst.src1.kind.KIpRel? ==> BranchEntry(inst) }

  lemma BranchRows(b: u8)
    ensures BranchRow(InstructionTable(b))
  {
    hide Rows00To3F, Rows40To7F, Rows80ToBF, RowsC0ToFF, BranchRow;
    if b < 0x40 { BranchRows0(b); } else if b < 0x80 { BranchRows4(b); } else if b < 0xC0 { BranchRows8(b); }
      else { BranchRowsC(b); }
  }

  lemma BranchRows0(b: u8)
    requires b < 0x40
    ensures BranchRow(Rows00To3F(b))
  {
  }

  lemma BranchRows4(b: u8)
    requires 0x40 <= b < 0x80
    ensures BranchRow(Rows40To7F(b))
  {
  }

  lemma BranchRows8(b: u8)
    requires 0x80 <= b < 0xC0
    ensures BranchRow(Rows80ToBF(b))
  {
  }

  lemma BranchRowsC(b: u8)
    requires 0xC0 <= b
    ensures BranchRow(RowsC0ToFF(b))
  {
  }

  /** Whether the branch is taken, in the state before it. */
  predicate BranchTaken(s: State, inst: Op)
  {
    match inst.opType
    case OpJump => JumpCondition(s, inst.subType)
    case OpLoop =>
      var zf := s.eflags[ZERO];
      Wrap32(s.regs[ECX] as int - 1) != 0
        && (inst.subType == LOOP_NORMAL || (inst.subType == LOOPNE && !zf) || (inst.subType == LOOPE && zf))
    case _ => true
  }

  lemma BranchGoes(i: Instruction, env: Env)
    requires BranchEntry(i.inst) && i.src1.kind.DImm?
    ensures Execute(i, env).Ok?
    ensures Execute(i, env).value.oldEip == i.s.oldEip
    ensures Execute(i, env).value.eip == if BranchTaken(i.s, i.inst) then i.src1.id else i.s.eip
  {
    hide JumpCondition, Push;
    WrapSmall(i.src1.id);
  }

  lemma SameBranch(s: State, t: State, inst: Op)
    requires s.regs == t.regs && s.eflags == t.eflags && s.segs == t.segs && s.opOverride == t.opOverride
    ensures BranchTaken(s, inst) == BranchTaken(t, inst)
  {
  }

  /** A branch behind its opcode: where it goes is what its displacement, read at the operand size, shows. */
  lemma BareBranch(s: State, opcode: u8, rest: seq<u8>, vaddr: int, env: Env, t: State)
    requires CodeIs(s, rest) && RunBare(s, opcode, env) == Ok(t) && Wrap32(vaddr) == s.eip
    requires InstructionTable(opcode).src1.kind.KIpRel?
    requires ShownOperand(rest, vaddr, InstructionTable(opcode).src1, OpSize32(s)).Target?
    ensures t.oldEip == Wrap32(s.eip + ImmBytes(ActualSize(InstructionTable(opcode).src1.size, OpSize32(s))))
    ensures t.eip == if BranchTaken(s, InstructionTable(opcode))
                     then ShownOperand(rest, vaddr, InstructionTable(opcode).src1, OpSize32(s)).address else t.oldEip
  {
    hide InstructionTable, CodeIs, Execute, ShownOperand, BranchTaken, Skip, Wrap32, OpSize32, DecodeOperand,
      SelectEntry, Decode;
    hide ActualSize, ImmBytes;
    BranchRows(opcode);
    var inst := InstructionTable(opcode);
    SelectsBranch(s, opcode);
    var i := Decode(s, inst).value;
    BranchDecodes(s, rest, inst, vaddr, ImmBytes(ActualSize(inst.src1.size, OpSize32(s))), i);
    BranchGoes(i, env);
    SameBranch(s, i.s, inst);
  }

  lemma SelectsBranch(s: State, opcode: u8)
    requires BranchEntry(InstructionTable(opcode))
    ensures SelectEntry(s, opcode) == (InstructionTable(opcode), s)
  {
    hide InstructionTable;
  }

  lemma BranchListed(rest: seq<u8>, inst: Op, vaddr: int, wide: bool, wideAddress: bool, n: nat)
    requires BranchEntry(inst) && BodyLength(rest, inst, wide, wideAddress) == Ok(n)
    ensures n == ImmBytes(ActualSize(inst.src1.size, wide)) && n <= |rest| && n > 0
    ensures BodyShows(rest, inst, vaddr, wide, wideAddress).src1 == ShownOperand(rest, vaddr, inst.src1, wide)
    ensures ShownOperand(rest, vaddr, inst.src1, wide).Target?
  {
    hide Signed8, Signed16, Bytes16, Bytes32, Wrap32;
  }

  lemma BranchDecodes(s: State, rest: seq<u8>, inst: Op, vaddr: int, n: nat, i: Instruction)
    requires BranchEntry(inst) && CodeIs(s, rest) && Decode(s, inst) == Ok(i) && Wrap32(vaddr) == s.eip
    requires n == ImmBytes(ActualSize(inst.src1.size, OpSize32(s)))
        && ShownOperand(rest, vaddr, inst.src1, OpSize32(s)).Target?
    ensures i.inst == inst && i.src1.kind.DImm?
        && i.src1.id == ShownOperand(rest, vaddr, inst.src1, OpSize32(s)).address
    ensures i.s == s.(eip := Wrap32(s.eip + n), oldEip := Wrap32(s.eip + n))
  {
    hide CodeIs, ShownOperand, DecodeOperand, OpSize32, ActualSize, ImmBytes, AddrSize32;
    var (dst, s1) := DecodeOperand(s, NO_RM, 0, inst.dest).value;
    OperandTakes(s, NO_RM, 0, inst.dest, dst, s1);
    SkipTwice(s, 0, 0);
    var (src1, s2) := DecodeOperand(s, NO_RM, 0, inst.src1).value;
    OperandTakes(s, NO_RM, 0, inst.src1, src1, s2);
    TargetsAgree(s, rest, NO_RM, 0, inst.src1, vaddr, src1, s2);
    var (src2, s3) := DecodeOperand(s2, NO_RM, 0, inst.src2).value;
    OperandTakes(s2, NO_RM, 0, inst.src2, src2, s3);
    SkipTwice(s2, 0, 0);
  }

  /** The displacement read at two operand sizes leads to the same place: the sizes come to the same, or the word and
      the dword at its place happen to. */
  predicate SameTargets(text: seq<u8>, op: Operand, wide: bool, listedWide: bool)
  {
    || op.size == Sz8 || wide == listedWide
    || (|text| >= 4 && Wrap32(2 + Signed16(Bytes16(text[0], text[1]))) ==
      Wrap32(4 + Bytes32(text[0], text[1], text[2], text[3])))
  }

  lemma TargetsCompare(text: seq<u8>, vaddr: int, op: Operand, wide: bool, listedWide: bool)
    requires op.kind.KIpRel? && (op.size == Sz8 || op.size == Sz1632)
    requires ShownOperand(text, vaddr, op, wide).Target? && ShownOperand(text, vaddr, op, listedWide).Target?
    ensures ShownOperand(text, vaddr, op, wide) == ShownOperand(text, vaddr, op, listedWide) <==>
        SameTargets(text, op, wide, listedWide)
  {
    hide Wrap32, Signed8, Signed16, Bytes16, Bytes32;
    if op.size == Sz1632 && wide != listedWide {
      var (x, y) := (2 + Signed16(Bytes16(text[0], text[1])), 4 + Bytes32(text[0], text[1], text[2], text[3]));
      SameFrom(vaddr, x, y);
      assert vaddr + 2 + Signed16(Bytes16(text[0], text[1])) == vaddr + x;
      assert vaddr + 4 + Bytes32(text[0], text[1], text[2], text[3]) == vaddr + y;
    }
  }

  lemma SameFrom(v: int, x: int, y: int)
    ensures Wrap32(v + x) == Wrap32(v + y) <==> Wrap32(x) == Wrap32(y)
  {
    hide Wrap32;
    WrapTwice(x, v);
    WrapTwice(y, v);
    WrapTwice(v + x, -v);
    WrapTwice(v + y, -v);
  }

  /** A whole branch instruction with any prefixes whatever: it goes, if it is taken, where its displacement leads at
      the size the prefixes come to, and else to its end; the target listed for the text at EIP is that place exactly
      when the displacement leads to the same place at the size they toggle. */
  lemma BranchTargetShown(s: State, code: seq<u8>, k: nat, n: nat, env: Env, t: State)
    requires NothingPending(s) && CodeIs(s, code) && |code| < TWO32 && k == PrefixCount(code) && k < |code|
    requires InstructionTable(code[k]).src1.kind.KIpRel?
    requires ShownOperand(code[k + 1..], s.eip + k + 1, InstructionTable(code[k]).src1,
        s.segs[CS].use32 != (0x66 in code[..k])).Target?
    requires Length(code, s.segs[CS].use32, s.segs[CS].use32) == Ok(n) && Step.Step(s, env) == Ok(t)
    ensures var (op, w) := (InstructionTable(code[k]).src1, s.segs[CS].use32 != (0x66 in code[..k]));
            && t.oldEip == Wrap32(s.eip + k + 1 + ImmBytes(ActualSize(op.size, w)))
            && t.eip == if BranchTaken(s.(opOverride := 0x66 in code[..k]), InstructionTable(code[k]))
                        then ShownOperand(code[k + 1..], s.eip + k + 1, op, w).address else t.oldEip
    ensures var (op, w) := (InstructionTable(code[k]).src1, s.segs[CS].use32 != (0x66 in code[..k]));
            Shows(code, s.eip, s.segs[CS].use32, s.segs[CS].use32).src1 ==
              ShownOperand(code[k + 1..], s.eip + k + 1, op, w)
            <==> SameTargets(code[k + 1..], op, w, s.segs[CS].use32 != TogglesSize(code[..k]))
  {
    hide CodeIs, IsPrefix, AllPrefixes, Length, Shows, Step.Step, RunBare, Wrap32, InstructionTable, BranchTaken,
      BodyShows, BodyLength;
    hide TogglesSize, TogglesAddress, OpSize32, AddrSize32, NothingPending, ShownOperand, SameTargets, ImmBytes,
      ActualSize;
    var (opcode, rest, wide) := (code[k], code[k + 1..], s.segs[CS].use32);
    assert code[k..] == [opcode] + rest;
    var b, r := StepBehindPrefixes(s, code, k, env, t);
    var (w, d, a) := (OpSize32(b), wide != TogglesSize(code[..k]), wide != TogglesAddress(code[..k]));
    PrefixesListed(code, k, s.eip, wide, wide);
    BranchRows(opcode);
    var at := s.eip + k + 1;
    BranchText(opcode, rest, s.eip + k, at, d, a);
    var x := BodyLength(rest, InstructionTable(opcode), d, a).value;
    BranchListed(rest, InstructionTable(opcode), at, d, a, x);
    TargetsCompare(rest, at, InstructionTable(opcode).src1, w, d);
    BareBranch(b, opcode, rest, at, env, r);
    WrapTwice(at, ImmBytes(ActualSize(InstructionTable(opcode).src1.size, w)));
    SameBranch(b, s.(opOverride := 0x66 in code[..k]), InstructionTable(opcode));
  }

  lemma BranchText(opcode: u8, rest: seq<u8>, vaddr: int, at: int, wide: bool, wideAddress: bool)
    requires BranchEntry(InstructionTable(opcode)) && at == vaddr + 1
    ensures Length([opcode] + rest, wide, wideAddress) ==
        Longer(BodyLength(rest, InstructionTable(opcode), wide, wideAddress), 1)
    ensures Length([opcode] + rest, wide, wideAddress).Ok? ==>
              Shows([opcode] + rest, vaddr, wide, wideAddress) ==
                BodyShows(rest, InstructionTable(opcode), at, wide, wideAddress)
  {
    hide InstructionTable, BodyLength, BodyShows;
    assert ([opcode] + rest)[1..] == rest;
  }
}
