/** What every run of the interpreter keeps, and what prefixes amount to. */
module RunInvariants {
  import opened Words
  import opened I386
  import opened Machine
  import opened Step

  // ----- Where a destination may point -----

  predicate SegKind(k: Kind) { k.KSegRegModrm? || k.KConstSegReg? }
  predicate PlainKind(k: Kind) { !SegKind(k) && !k.KCregModrm? }
  predicate LoadsSegment(t: OpType) { t.OpPopSr? || t.OpMovToSr? }

  /** Segment loads have a segment register as destination and nothing else writes one; no entry writes a
      control register. */
  predicate WellPlaced(op: Op)
  {
    && (if LoadsSegment(op.opType) then SegKind(op.dest.kind) else PlainKind(op.dest.kind))
    && (op.opType.OpXchg? ==> PlainKind(op.src1.kind) && PlainKind(op.src2.kind))
  }

  lemma TableWellPlaced(b: u8)
    ensures WellPlaced(InstructionTable(b)) && WellPlaced(ExtendedInstructionTable(b))
  {
    hide Rows00To3F, Rows40To7F, Rows80ToBF, RowsC0ToFF, WellPlaced;
    if b < 0x40 { RowsWellPlaced0(b); }
    else if b < 0x80 { RowsWellPlaced4(b); }
    else if b < 0xC0 { RowsWellPlaced8(b); }
    else if b < 0xE0 { RowsWellPlacedC(b); }
    else { RowsWellPlacedE(b); }
    ExtendedWellPlaced(b);
  }

  lemma RowsWellPlaced0(b: u8)
    requires b < 0x40
    ensures WellPlaced(Rows00To3F(b))
  {
  }

  lemma RowsWellPlaced4(b: u8)
    requires 0x40 <= b < 0x80
    ensures WellPlaced(Rows40To7F(b))
  {
  }

  lemma RowsWellPlaced8(b: u8)
    requires 0x80 <= b < 0xC0
    ensures WellPlaced(Rows80ToBF(b))
  {
  }

  lemma RowsWellPlacedC(b: u8)
    requires 0xC0 <= b < 0xE0
    ensures WellPlaced(RowsC0ToFF(b))
  {
  }

  lemma RowsWellPlacedE(b: u8)
    requires 0xE0 <= b
    ensures WellPlaced(RowsC0ToFF(b))
  {
  }

  lemma ExtendedWellPlaced(b: u8)
    ensures WellPlaced(ExtendedInstructionTable(b))
  {
  }

  lemma FixupWellPlaced(op: Op, reg: RegIndex)
    requires WellPlaced(op)
    ensures Fixup(op, reg).Ok? ==> WellPlaced(Fixup(op, reg).value)
  {
  }

  /** The instruction's destination, seen after decoding. */
  predicate SafeDest(i: Instruction)
  {
    var t := i.inst.opType;
    if LoadsSegment(t) then i.dst.kind.DSegReg?
    else if t.OpRepez? || t.OpRepne? then true
    else PlainDest(i.dst) && (t.OpXchg? ==> PlainDest(i.src1) && PlainDest(i.src2))
  }

  lemma DecodeOperandKind(s: State, rm: Decoded, reg: RegIndex, op: Operand, d: Decoded, t: State)
    requires DecodeOperand(s, rm, reg, op) == Ok((d, t))
    requires PlainDest(rm)
    ensures PlainKind(op.kind) ==> PlainDest(d)
    ensures SegKind(op.kind) ==> d.kind.DSegReg?
    ensures t == s.(eip := t.eip)
  {
    hide Code8, Code16, Code32, SignedImm, ImmValue, Wrap32, ActualSize, OpSize32, AddrSize32, ImmBytes;
  }

  /** A ModR/M operand is memory or one of the eight registers, and decoding it only moves EIP. */
  ghost predicate RmShape(s: State, d: Decoded, t: State)
  {
    (d.kind.DMem? || (d.kind.DReg? && d.id < 8)) && t == s.(eip := t.eip)
  }

  lemma DecodeRmKind(s: State, modrm: u8, d: Decoded, t: State)
    requires DecodeRm(s, modrm) == Ok((d, t))
    ensures RmShape(s, d, t)
  {
    hide DecodeRm16, DecodeRm32, RmShape;
    DecodeRm16Kind(s, modrm);
    DecodeRm32Kind(s, modrm);
  }

  lemma DecodeRm16Kind(s: State, modrm: u8)
    ensures RmShape(s, DecodeRm16(s, modrm).0, DecodeRm16(s, modrm).1)
  {
    hide Code8, Code16, Wrap16, Wrap32, Displacement8;
  }

  lemma DecodeRm32Kind(s: State, modrm: u8)
    ensures var r := DecodeRm32(s, modrm); r.Ok? ==> RmShape(s, r.value.0, r.value.1)
  {
    hide Code8, Code32, Wrap32, Displacement8, RmBase32;
    if ModField(modrm) != 3 { RmBaseMoves(s, ModField(modrm), RmOf(modrm)); }
  }

  lemma RmBaseMoves(s: State, mod: nat, rm: RegIndex)
    ensures var r := RmBase32(s, mod, rm); r.Ok? ==> r.value.2 == s.(eip := r.value.2.eip)
  {
    hide Code8, Code32, Wrap32;
  }

  /** Decoding moves EIP, sets old_eip and yields a destination the operation may have. */
  lemma DecodeKeeps(s: State, inst: Op, i: Instruction)
    requires Decode(s, inst) == Ok(i)
    requires WellPlaced(inst) || inst.opType.OpRepez? || inst.opType.OpRepne?
    ensures i.s == s.(eip := i.s.eip, oldEip := i.s.eip) && SafeDest(i)
  {
    hide DecodeModrm, Fixup, DecodeOperands, SafeDest, WellPlaced;
    var (reg, rm, t) := DecodeModrm(s, inst).value;
    ModrmKind(s, inst, reg, rm, t);
    var fixed := Fixup(inst, reg).value;
    if inst.opType.OpRepez? || inst.opType.OpRepne? {
      RepNotFixed(inst, reg);
    } else {
      FixupWellPlaced(inst, reg);
    }
    OperandsKeep(t, rm, reg, fixed, i);
  }

  lemma RepNotFixed(op: Op, reg: RegIndex)
    requires op.opType.OpRepez? || op.opType.OpRepne?
    ensures Fixup(op, reg) == Ok(op)
  {
  }

  lemma ModrmKind(s: State, inst: Op, reg: RegIndex, rm: Decoded, t: State)
    requires DecodeModrm(s, inst) == Ok((reg, rm, t))
    ensures PlainDest(rm) && t == s.(eip := t.eip)
  {
    hide DecodeRm, Code8;
    if UsesModrm(inst) {
      var r := DecodeRm(Skip(s, 1), Code8(s));
      assert r.Ok? && r.value.0 == rm && r.value.1 == t;
      DecodeRmKind(Skip(s, 1), Code8(s), r.value.0, r.value.1);
    }
  }

  lemma OperandsKeep(s: State, rm: Decoded, reg: RegIndex, inst: Op, i: Instruction)
    requires DecodeOperands(s, rm, reg, inst) == Ok(i) && PlainDest(rm)
    requires WellPlaced(inst) || inst.opType.OpRepez? || inst.opType.OpRepne?
    ensures i.s == s.(eip := i.s.eip, oldEip := i.s.eip) && SafeDest(i)
  {
    hide DecodeOperand, PlainDest;
    var (dst, s1) := DecodeOperand(s, rm, reg, inst.dest).value;
    DecodeOperandKind(s, rm, reg, inst.dest, dst, s1);
    var (src1, s2) := DecodeOperand(s1, rm, reg, inst.src1).value;
    DecodeOperandKind(s1, rm, reg, inst.src1, src1, s2);
    var (src2, s3) := DecodeOperand(s2, rm, reg, inst.src2).value;
    DecodeOperandKind(s2, rm, reg, inst.src2, src2, s3);
  }

  // ----- What execution keeps -----

  /** Each segment base is its selector times 16, and protected mode is off. */
  predicate RealMode(s: State)
  {
    s.cr[0] % 2 == 0 && forall i :: 0 <= i < 6 ==> s.segs[i].base == s.segs[i].selector * 16
  }

  ghost predicate ExecutionKeeps(s: State, t: State)
  {
    SameButSegs(s, t) && (RealMode(s) ==> RealMode(t))
  }

  lemma SameControlKeeps(s: State, t: State)
    requires SameControl(s, t)
    ensures ExecutionKeeps(s, t)
  {
  }

  lemma LoadKeeps(s: State, dst: Decoded, selector: u16)
    requires dst.kind.DSegReg?
    ensures var r := LoadSegReg(s, dst, selector); r.Ok? ==> ExecutionKeeps(s, r.value)
  {
  }

  lemma SegmentLoadKeeps(i: Instruction, env: Env, t: State)
    requires SafeDest(i) && LoadsSegment(i.inst.opType) && Execute(i, env) == Ok(t)
    ensures ExecutionKeeps(i.s, t)
  {
    hide LoadSegReg, ReadSource, Top;
    var v := if i.inst.opType.OpPopSr? then Wrap16(Top(i.s)) else Wrap16(ReadSource(i.s, i.src1).value);
    var u := if i.inst.opType.OpPopSr? then Drop(i.s) else i.s;
    LoadKeeps(u, i.dst, v);
    assert LoadSegReg(u, i.dst, v) == Ok(t);
    assert RealMode(i.s) ==> RealMode(u);
  }

  lemma PlainExecutionKeeps(i: Instruction, env: Env, t: State)
    requires SafeDest(i) && !LoadsSegment(i.inst.opType) && Execute(i, env) == Ok(t)
    ensures SameControl(i.s, t)
  {
    hide DoEnter, DoLeave, DoAlu, DoAluSpecial, DoShift, DoPush, DoPop, DoPopSr, WriteDest, DoMov, DoMovToSr,
      DoCallNear;
    hide DoRetNear, DoJump, DoIncDec, DoInt, DoString, DoRepString, DoCbwCwde, DoCwdCdq, DoXchg, DoIn, DoLoop, DoPushf;
    hide DoPopf, DoXlat, DoSahf, DoLahf, PushAll, PopInto;
  }

  lemma ExecuteKeeps(i: Instruction, env: Env, t: State)
    requires SafeDest(i) && Execute(i, env) == Ok(t)
    ensures ExecutionKeeps(i.s, t)
  {
    hide Execute, SafeDest;
    if LoadsSegment(i.inst.opType) {
      SegmentLoadKeeps(i, env, t);
    } else {
      PlainExecutionKeeps(i, env, t);
      SameControlKeeps(i.s, t);
    }
  }

  ghost predicate KeepsPrefixState(s: State, t: State)
  {
    && s.cr == t.cr && s.stepsRun == t.stepsRun && s.opOverride == t.opOverride && s.addrOverride == t.addrOverride
    && s.overridingSgmt == t.overridingSgmt && s.sgmtOverride == t.sgmtOverride
  }

  lemma RunBareKeeps(s: State, opcode: u8, env: Env, t: State)
    requires RunBare(s, opcode, env) == Ok(t)
    ensures KeepsPrefixState(s, t) && (RealMode(s) ==> RealMode(t))
  {
    hide Decode, Execute, SelectEntry, WellPlaced, SafeDest;
    var (inst, u) := SelectEntry(s, opcode);
    var i := Decode(u, inst).value;
    SelectKeeps(s, opcode);
    DecodeKeeps(u, inst, i);
    ExecuteKeeps(i, env, t);
  }

  lemma SelectKeeps(s: State, opcode: u8)
    ensures var (inst, u) := SelectEntry(s, opcode);
            && (WellPlaced(inst) || inst.opType.OpRepez? || inst.opType.OpRepne?)
            && u == s.(eip := u.eip)
  {
    hide InstructionTable, ExtendedInstructionTable, WellPlaced, Code8;
    TableWellPlaced(opcode);
    TableWellPlaced(Code8(s));
  }

  // ----- Prefixes -----

  predicate SegmentPrefix(b: u8) { b == 0x26 || b == 0x2E || b == 0x36 || b == 0x3E || b == 0x64 || b == 0x65 }

  function PrefixSegment(b: u8): SegIndex
  {
    match b
    case 0x26 => ES
    case 0x2E => CS
    case 0x36 => SS
    case 0x3E => DS
    case 0x64 => FS
    case _ => GS
  }

  predicate PrefixEntry(inst: Op, b: u8)
  {
    && (inst.opType.OpLock? <==> b == 0xF0)
    && (inst.opType.OpSizeOverride? <==> b == 0x66)
    && (inst.opType.OpAddrOverride? <==> b == 0x67)
    && (inst.opType.OpSegmentOverride? <==> SegmentPrefix(b))
    && (SegmentPrefix(b) ==> OverrideSegment(inst) == PrefixSegment(b))
  }

  /** The prefix entries of the table: 66, 67, F0 and the six segment overrides, and no others. */
  lemma PrefixBytes(b: u8)
    ensures PrefixEntry(InstructionTable(b), b)
  {
    hide Rows00To3F, Rows40To7F, Rows80ToBF, RowsC0ToFF, PrefixEntry;
    if b < 0x40 { PrefixBytes0(b); }
    else if b < 0x80 { PrefixBytes4(b); }
    else if b < 0xC0 { PrefixBytes8(b); }
    else { PrefixBytesC(b); }
  }

  lemma PrefixBytes0(b: u8)
    requires b < 0x40
    ensures PrefixEntry(Rows00To3F(b), b)
  {
  }

  lemma PrefixBytes4(b: u8)
    requires 0x40 <= b < 0x80
    ensures PrefixEntry(Rows40To7F(b), b)
  {
  }

  lemma PrefixBytes8(b: u8)
    requires 0x80 <= b < 0xC0
    ensures PrefixEntry(Rows80ToBF(b), b)
  {
  }

  lemma PrefixBytesC(b: u8)
    requires 0xC0 <= b
    ensures PrefixEntry(RowsC0ToFF(b), b)
  {
  }

  /** What scanning a row of prefixes amounts to: which sizes are overridden, the last segment override, and how
      many of the prefixes are counted as steps for the time being. */
  predicate OverridesSegment(ps: seq<u8>) { exists p :: p in ps && SegmentPrefix(p) }

  function LastSegment(ps: seq<u8>, default: SegIndex): SegIndex
  {
    if |ps| == 0 then default
    else if SegmentPrefix(ps[|ps| - 1]) then PrefixSegment(ps[|ps| - 1])
    else LastSegment(ps[..|ps| - 1], default)
  }

  function Counted(ps: seq<u8>): nat { if |ps| == 0 then 0 else (if ps[0] == 0xF0 then 0 else 1) + Counted(ps[1..]) }

  /** The state in which the instruction behind the prefixes `ps` runs, its opcode fetched. */
  function Prefixed(s: State, ps: seq<u8>): State
  {
    s.(eip := Wrap32(s.eip + |ps| + 1), stepsRun := s.stepsRun + Counted(ps) + 1,
       opOverride := s.opOverride || 0x66 in ps, addrOverride := s.addrOverride || 0x67 in ps,
       overridingSgmt := s.overridingSgmt || OverridesSegment(ps), sgmtOverride := LastSegment(ps, s.sgmtOverride))
  }

  /** What is undone as the recursion returns. */
  function Unwound(t: State, ps: seq<u8>): State
  {
    t.(stepsRun := t.stepsRun - Counted(ps),
       opOverride := t.opOverride && 0x66 !in ps, addrOverride := t.addrOverride && 0x67 !in ps,
       overridingSgmt := t.overridingSgmt && !OverridesSegment(ps),
       sgmtOverride := if OverridesSegment(ps) then DS else t.sgmtOverride)
  }

  function UnwoundResult(r: Result<State>, ps: seq<u8>): Result<State>
  {
    match r
    case Ok(t) => Ok(Unwound(t, ps))
    case Halted(why) => Halted(why)
  }

  /** The code at EIP is the prefixes `ps` followed by the non-prefix byte `opcode`. */
  ghost predicate PrefixedCode(s: State, ps: seq<u8>, opcode: u8)
  {
    && (forall k :: 0 <= k < |ps| ==> Code8(Skip(s, k)) == ps[k] && IsPrefix(ps[k]))
    && Code8(Skip(s, |ps|)) == opcode && !IsPrefix(opcode)
  }

  /** One prefix byte: the state the recursive call starts from and what is undone after it. */
  function AfterPrefix(s: State, p: u8): State
  {
    var t := Skip(s, 1);
    if p == 0xF0 then t
    else if p == 0x66 then t.(stepsRun := s.stepsRun + 1, opOverride := true)
    else if p == 0x67 then t.(stepsRun := s.stepsRun + 1, addrOverride := true)
    else t.(stepsRun := s.stepsRun + 1, overridingSgmt := true, sgmtOverride := PrefixSegment(p))
  }

  lemma PrefixStep(s: State, p: u8, env: Env, levels: nat)
    requires Code8(s) == p && IsPrefix(p) && levels > 0
    ensures StepWithin(s, env, levels) == UnwoundResult(StepWithin(AfterPrefix(s, p), env, levels - 1), [p])
  {
    PrefixBytes(p);
    hide RunBare, InstructionTable, Code8;
    assert Counted([p]) == if p == 0xF0 then 0 else 1;
    assert OverridesSegment([p]) == SegmentPrefix(p) by { if SegmentPrefix(p) { assert p in [p]; } }
  }

  lemma PrefixedStep(s: State, ps: seq<u8>)
    requires |ps| > 0 && IsPrefix(ps[0])
    ensures Prefixed(s, ps) == Prefixed(AfterPrefix(s, ps[0]), ps[1..])
  {
    PrefixBytes(ps[0]);
    hide InstructionTable, Wrap32;
    assert ps == [ps[0]] + ps[1..];
    WrapTwice(s.eip + 1, |ps|);
    SegmentsSplit(ps);
    FirstSegment(ps, s.sgmtOverride);
  }

  lemma UnwindStep(t: State, ps: seq<u8>)
    requires |ps| > 0
    ensures Unwound(Unwound(t, ps[1..]), [ps[0]]) == Unwound(t, ps)
  {
    assert ps == [ps[0]] + ps[1..];
    SegmentsSplit(ps);
    SegmentsSplit([ps[0]]);
    assert Counted([ps[0]]) + Counted(ps[1..]) == Counted(ps);
  }

  lemma SegmentsSplit(ps: seq<u8>)
    requires |ps| > 0
    ensures OverridesSegment(ps) <==> SegmentPrefix(ps[0]) || OverridesSegment(ps[1..])
  {
    assert ps == [ps[0]] + ps[1..];
    if OverridesSegment(ps[1..]) {
      var p :| p in ps[1..] && SegmentPrefix(p);
      assert p in ps;
    }
  }

  lemma {:induction false} FirstSegment(ps: seq<u8>, default: SegIndex)
    requires |ps| > 0
    ensures LastSegment(ps, default)
         == LastSegment(ps[1..], if SegmentPrefix(ps[0]) then PrefixSegment(ps[0]) else default)
  {
    if |ps| > 1 {
      FirstSegment(ps[..|ps| - 1], default);
      assert ps[..|ps| - 1][1..] == ps[1..][..|ps| - 2];
    }
  }

  lemma {:induction false} PrefixesUnwind(s: State, ps: seq<u8>, opcode: u8, env: Env, levels: nat)
    requires PrefixedCode(s, ps, opcode) && |ps| <= levels
    ensures StepWithin(s, env, levels) == UnwoundResult(RunBare(Prefixed(s, ps), opcode, env), ps)
    decreases ps
  {
    hide StepWithin, RunBare, Prefixed, Unwound, IsPrefix, Code8;
    if |ps| == 0 {
      NoPrefix(s, opcode, env, levels);
    } else {
      var u := AfterPrefix(s, ps[0]);
      FirstPrefix(s, ps, opcode);
      PrefixStep(s, ps[0], env, levels);
      PrefixesUnwind(u, ps[1..], opcode, env, levels - 1);
      PrefixedStep(s, ps);
      var r := RunBare(Prefixed(s, ps), opcode, env);
      if r.Ok? { UnwindStep(r.value, ps); }
    }
  }

  lemma NoPrefix(s: State, opcode: u8, env: Env, levels: nat)
    requires Code8(Skip(s, 0)) == opcode && !IsPrefix(opcode)
    ensures StepWithin(s, env, levels) == UnwoundResult(RunBare(Prefixed(s, []), opcode, env), [])
  {
    hide RunBare, IsPrefix, InstructionTable, Code8;
    WrapSmall(s.eip);
    assert Skip(s, 0) == s;
    assert Prefixed(s, []) == Skip(s, 1).(stepsRun := s.stepsRun + 1);
    var r := RunBare(Prefixed(s, []), opcode, env);
    assert r.Ok? ==> Unwound(r.value, []) == r.value;
  }

  lemma CodeAhead(s: State, p: u8, k: nat)
    ensures Code8(Skip(AfterPrefix(s, p), k)) == Code8(Skip(s, k + 1))
  {
    hide Wrap32, Read8;
    WrapTwice(s.eip + 1, k);
    assert s.eip + 1 + k == s.eip + (k + 1);
  }

  lemma FirstPrefix(s: State, ps: seq<u8>, opcode: u8)
    requires |ps| > 0 && PrefixedCode(s, ps, opcode)
    ensures Code8(s) == ps[0] && IsPrefix(ps[0]) && PrefixedCode(AfterPrefix(s, ps[0]), ps[1..], opcode)
  {
    assert Skip(s, 0) == s by { WrapSmall(s.eip); }
    hide IsPrefix, Skip, Code8, AfterPrefix;
    var u := AfterPrefix(s, ps[0]);
    forall k: nat | k < |ps| - 1
      ensures Code8(Skip(u, k)) == ps[1..][k] && IsPrefix(ps[1..][k])
    {
      CodeAhead(s, ps[0], k);
      assert Code8(Skip(s, k + 1)) == ps[k + 1];
    }
    CodeAhead(s, ps[0], |ps| - 1);
  }

  // ----- The main results -----

  /** No prefix is pending: the state between instructions. */
  predicate NothingPending(s: State)
  {
    !s.opOverride && !s.addrOverride && !s.overridingSgmt && s.sgmtOverride == DS
  }

  /** The recursive handler does what scanning the prefixes first would do: the instruction runs with the sizes
      overridden that occur among them and with the last segment override, and afterwards nothing is pending and
      one step has been counted. */
  lemma StepScansPrefixes(s: State, ps: seq<u8>, opcode: u8, env: Env)
    requires NothingPending(s) && PrefixedCode(s, ps, opcode) && |ps| <= TWO32
    ensures var b := s.(eip := Wrap32(s.eip + |ps| + 1), stepsRun := s.stepsRun + Counted(ps) + 1,
                        opOverride := 0x66 in ps, addrOverride := 0x67 in ps,
                        overridingSgmt := OverridesSegment(ps), sgmtOverride := LastSegment(ps, DS));
            var r := RunBare(b, opcode, env);
            Step.Step(s, env) == match r
                                 case Ok(t) => Ok(t.(opOverride := false, addrOverride := false,
                                                     overridingSgmt := false, sgmtOverride := DS,
                                                     stepsRun := s.stepsRun + 1))
                                 case Halted(why) => Halted(why)
  {
    hide StepWithin, RunBare, PrefixedCode, OverridesSegment, LastSegment;
    PrefixesUnwind(s, ps, opcode, env, TWO32);
    var b := Prefixed(s, ps);
    var r := RunBare(b, opcode, env);
    if r.Ok? {
      RunBareKeeps(b, opcode, env, r.value);
      if !OverridesSegment(ps) { NoSegment(ps, DS); }
    }
  }

  lemma {:induction false} NoSegment(ps: seq<u8>, default: SegIndex)
    requires !OverridesSegment(ps)
    ensures LastSegment(ps, default) == default
  {
    if |ps| > 0 {
      assert ps[|ps| - 1] in ps;
      NoSegment(ps[..|ps| - 1], default);
    }
  }

  /** Code that is nothing but prefixes keeps the handler recursing for ever. */
  lemma {:induction false} EndlessPrefixesNeverReturn(s: State, env: Env, levels: nat)
    requires forall k: nat :: IsPrefix(Code8(Skip(s, k)))
    ensures StepWithin(s, env, levels) == Halted(EndlessPrefixes)
    decreases levels
  {
    hide StepWithin, Skip, Code8, AfterPrefix, IsPrefix;
    var p := Code8(s);
    FirstCode(s);
    assert IsPrefix(Code8(Skip(s, 0)));
    if levels == 0 {
      NoLevelsLeft(s, env);
    } else {
      PrefixStep(s, p, env, levels);
      forall k: nat ensures IsPrefix(Code8(Skip(AfterPrefix(s, p), k))) {
        CodeAhead(s, p, k);
      }
      EndlessPrefixesNeverReturn(AfterPrefix(s, p), env, levels - 1);
    }
  }

  lemma FirstCode(s: State)
    ensures Code8(Skip(s, 0)) == Code8(s)
  {
    hide Read8;
    WrapSmall(s.eip);
  }

  lemma NoLevelsLeft(s: State, env: Env)
    requires IsPrefix(Code8(s))
    ensures StepWithin(s, env, 0) == Halted(EndlessPrefixes)
  {
    hide RunBare, IsPrefix, Code8, InstructionTable;
  }

  /** What one step keeps, from whatever prefix state it starts in. */
  ghost predicate StepKeepsAll(s: State, t: State)
  {
    && s.cr == t.cr && (RealMode(s) ==> RealMode(t)) && t.stepsRun == s.stepsRun + 1
    && (t.opOverride ==> s.opOverride) && (t.addrOverride ==> s.addrOverride) && (t.overridingSgmt ==> s.overridingSgmt)
    && (t.sgmtOverride == s.sgmtOverride || t.sgmtOverride == DS)
  }

  lemma {:induction false} StepWithinKeeps(s: State, env: Env, levels: nat, t: State)
    requires StepWithin(s, env, levels) == Ok(t)
    ensures StepKeepsAll(s, t)
    decreases levels
  {
    hide RunBare, IsPrefix, Code8, StepWithin, StepKeepsAll, AfterPrefix, Unwound;
    var p := Code8(s);
    if !IsPrefix(p) {
      BareStepKeeps(s, env, levels, t);
    } else {
      if levels == 0 { NoLevelsLeft(s, env); }
      var u := AfterPrefix(s, p);
      PrefixStep(s, p, env, levels);
      var v := StepWithin(u, env, levels - 1).value;
      StepWithinKeeps(u, env, levels - 1, v);
      UnwoundKeeps(s, p, v);
    }
  }

  lemma BareStepKeeps(s: State, env: Env, levels: nat, t: State)
    requires !IsPrefix(Code8(s)) && StepWithin(s, env, levels) == Ok(t)
    ensures StepKeepsAll(s, t)
  {
    hide RunBare, RealMode, IsPrefix, Code8, InstructionTable;
    var u := Skip(s, 1).(stepsRun := s.stepsRun + 1);
    RunBareKeeps(u, Code8(s), env, t);
    SegsDecide(s, u);
  }

  lemma SegsDecide(s: State, t: State)
    requires s.cr == t.cr && s.segs == t.segs
    ensures RealMode(s) <==> RealMode(t)
  {
  }

  lemma UnwoundKeeps(s: State, p: u8, v: State)
    requires StepKeepsAll(AfterPrefix(s, p), v) && IsPrefix(p)
    ensures StepKeepsAll(s, Unwound(v, [p]))
  {
    PrefixBytes(p);
    hide RealMode, InstructionTable, Wrap32;
    SegsDecide(s, AfterPrefix(s, p));
    SegsDecide(v, Unwound(v, [p]));
    SegmentsSplit([p]);
    assert Counted([p]) == if p == 0xF0 then 0 else 1;
  }

  /** Every run that starts in real mode with no prefix pending stays so: each segment base is its selector times
      16 and protected mode is never entered; n steps count as n. */
  lemma {:induction false} RunsStayInRealMode(s: State, t: State, env: Env, n: nat)
    requires Steps(s, t, env, n) && RealMode(s) && NothingPending(s)
    ensures RealMode(t) && NothingPending(t) && t.stepsRun == s.stepsRun + n
    decreases n
  {
    hide StepWithin, RealMode;
    if n > 0 {
      var u :| Step.Step(s, env) == Ok(u) && Steps(u, t, env, n - 1);
      StepWithinKeeps(s, env, TWO32, u);
      RunsStayInRealMode(u, t, env, n - 1);
    }
  }
}
