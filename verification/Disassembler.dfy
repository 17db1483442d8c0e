/** The disassembler's instruction length, iceman/dis.c, and its agreement with the interpreter's decoder. The two
    read the same table with separately written length logic. */
module Disassembler {
  import opened Words
  import opened I386
  import opened Machine
  import opened Step
  import opened RunInvariants

  // ----- Lengths as dis.c computes them, over the bytes from an address on -----

  /** Reading `n` bytes of text; past the buffer it is host-undefined. */
  function Reads(code: seq<u8>, n: nat): Result<nat> { if n <= |code| then Ok(n) else Halted(HostUndefined) }

  function SibLength(code: seq<u8>, mod: nat): Result<nat>
  {
    if |code| == 0 then Halted(HostUndefined)
    else Reads(code, if RmOf(code[0]) == 5 && mod == 0 then 5 else 1)
  }

  function DisplacementLength(mod: nat, wideAddress: bool): nat
  {
    if mod == 1 then 1 else if mod == 2 then (if wideAddress then 4 else 2) else 0
  }

  function Rm32Length(code: seq<u8>, mod: nat, rm: nat): Result<nat>
  {
    if mod == 3 then Ok(0)
    else
      var base :- if rm == 5 && mod == 0 then Ok(4) else if rm == 4 then SibLength(code, mod) else Ok(0);
      Reads(code, base + DisplacementLength(mod, true))
  }

  function Rm16Length(code: seq<u8>, mod: nat, rm: nat): Result<nat>
  {
    if mod == 3 then Ok(0)
    else Reads(code, if rm == 6 && mod == 0 then 2 else DisplacementLength(mod, false))
  }

  function ModrmLength(code: seq<u8>, inst: Op, wideAddress: bool): Result<nat>
  {
    if !UsesModrm(inst) then Ok(0)
    else if |code| == 0 then Halted(HostUndefined)
    else
      var (mod, rm) := (ModField(code[0]), RmOf(code[0]));
      var n :- if wideAddress then Rm32Length(code[1..], mod, rm) else Rm16Length(code[1..], mod, rm);
      Ok(n + 1)
  }

  function OperandLength(op: Operand, wide: bool, wideAddress: bool): Result<nat>
  {
    var size := ActualSize(op.size, wide);
    match op.kind
    case KSimm | KImm | KIpRel => if FlagSize(size) then Ok(ImmBytes(size)) else Halted(Spin)
    case KOffset => Ok(if wideAddress then 4 else 2)
    case _ => Ok(0)
  }

  /** ModR/M byte, addressing bytes and operands: everything after the opcode. */
  function BodyLength(code: seq<u8>, inst: Op, wide: bool, wideAddress: bool): Result<nat>
  {
    var modrm :- ModrmLength(code, inst, wideAddress);
    var dest :- OperandLength(inst.dest, wide, wideAddress);
    var src1 :- OperandLength(inst.src1, wide, wideAddress);
    var src2 :- OperandLength(inst.src2, wide, wideAddress);
    Reads(code, modrm + dest + src1 + src2)
  }

  /** `dis386`: each prefix toggles a size, and a segment override toggles the address size too. */
  function Length(code: seq<u8>, wide: bool, wideAddress: bool): Result<nat>
    decreases code
  {
    if |code| == 0 then Halted(HostUndefined)
    else
      var (inst, rest) := (InstructionTable(code[0]), code[1..]);
      match inst.opType
      case OpLock | OpRepez | OpRepne => Longer(Length(rest, wide, wideAddress), 1)
      case OpSizeOverride => Longer(Length(rest, !wide, wideAddress), 1)
      case OpAddrOverride | OpSegmentOverride => Longer(Length(rest, wide, !wideAddress), 1)
      case OpExtended =>
        if |rest| == 0 then Halted(HostUndefined)
        else Longer(BodyLength(rest[1..], ExtendedInstructionTable(rest[0]), wide, wideAddress), 2)
      case _ => Longer(BodyLength(rest, inst, wide, wideAddress), 1)
  }

  function Longer(r: Result<nat>, k: nat): Result<nat>
  {
    match r
    case Ok(n) => Ok(n + k)
    case Halted(why) => Halted(why)
  }

  // ----- The branch targets it shows -----

  /** What is shown of an operand: of a relative one, the target. */
  datatype Shown = Other | Target(address: u32)

  datatype ShownOperands = ShownOperands(dest: Shown, src1: Shown, src2: Shown)

  /** The displacement is read from `text` and added to the address behind it. */
  function ShownOperand(text: seq<u8>, vaddr: int, op: Operand, wide: bool): Shown
  {
    if !op.kind.KIpRel? then Other
    else match ActualSize(op.size, wide)
      case Sz8 => if |text| < 1 then Other else Target(Wrap32(vaddr + 1 + Signed8(text[0])))
      case Sz16 => if |text| < 2 then Other else Target(Wrap32(vaddr + 2 + Signed16(Bytes16(text[0], text[1]))))
      case Sz32 => if |text| < 4 then Other else Target(Wrap32(vaddr + 4 + Bytes32(text[0], text[1], text[2], text[3])))
      case _ => Other
  }

  /** All three operands read their text right behind the ModR/M byte, if any; the running size gives their
      addresses. */
  function BodyShows(code: seq<u8>, inst: Op, vaddr: int, wide: bool, wideAddress: bool): ShownOperands
    requires BodyLength(code, inst, wide, wideAddress).Ok?
  {
    var text := if UsesModrm(inst) && |code| > 0 then code[1..] else code;
    var m := ModrmLength(code, inst, wideAddress).value;
    var a := OperandLength(inst.dest, wide, wideAddress).value;
    var b := OperandLength(inst.src1, wide, wideAddress).value;
    ShownOperands(ShownOperand(text, vaddr + m, inst.dest, wide), ShownOperand(text, vaddr + m + a, inst.src1, wide),
                  ShownOperand(text, vaddr + m + a + b, inst.src2, wide))
  }

  /** What is shown for text at address `vaddr`. */
  function Shows(code: seq<u8>, vaddr: int, wide: bool, wideAddress: bool): ShownOperands
    requires Length(code, wide, wideAddress).Ok?
    decreases code
  {
    var (inst, rest) := (InstructionTable(code[0]), code[1..]);
    match inst.opType
    case OpLock | OpRepez | OpRepne => Shows(rest, vaddr + 1, wide, wideAddress)
    case OpSizeOverride => Shows(rest, vaddr + 1, !wide, wideAddress)
    case OpAddrOverride | OpSegmentOverride => Shows(rest, vaddr + 1, wide, !wideAddress)
    case OpExtended => BodyShows(rest[1..], ExtendedInstructionTable(rest[0]), vaddr + 2, wide, wideAddress)
    case _ => BodyShows(rest, inst, vaddr + 1, wide, wideAddress)
  }

  // ----- The same, accumulated step by step as the text is walked -----

  method DisSib(code: seq<u8>, mod: nat) returns (r: Result<nat>)
    ensures r == SibLength(code, mod)
  {
    if |code| == 0 { return Halted(HostUndefined); }
    var sz := 1;
    if RmOf(code[0]) == 5 && mod == 0 { sz := sz + 4; }
    return if sz <= |code| then Ok(sz) else Halted(HostUndefined);
  }

  method DisRm32(code: seq<u8>, mod: nat, rm: nat) returns (r: Result<nat>)
    ensures r == Rm32Length(code, mod, rm)
  {
    var sz := 0;
    if mod == 3 { return Ok(sz); }
    if rm == 5 && mod == 0 {
      sz := sz + 4;
    } else if rm == 4 {
      var t := DisSib(code, mod);
      if t.Halted? { return Halted(t.why); }
      sz := sz + t.value;
    }
    if mod == 1 { sz := sz + 1; } else if mod == 2 { sz := sz + 4; }
    return if sz <= |code| then Ok(sz) else Halted(HostUndefined);
  }

  method DisRm16(code: seq<u8>, mod: nat, rm: nat) returns (r: Result<nat>)
    ensures r == Rm16Length(code, mod, rm)
  {
    var sz := 0;
    if mod == 3 { return Ok(sz); }
    if rm == 6 && mod == 0 { sz := 2; }
    if mod == 1 { sz := 1; } else if mod == 2 { sz := 2; }
    return if sz <= |code| then Ok(sz) else Halted(HostUndefined);
  }

  /** disasm_operand: how many bytes it takes and, for a relative operand, the target it shows. */
  method DisOperand(text: seq<u8>, vaddr: int, op: Operand, wide: bool, wideAddress: bool)
      returns (r: Result<nat>, shown: Shown)
    ensures r == OperandLength(op, wide, wideAddress)
    ensures shown == ShownOperand(text, vaddr, op, wide)
  {
    var size := ActualSize(op.size, wide);
    shown := Other;
    match op.kind
    case KSimm | KImm =>
      if size == Sz8 { r := Ok(1); } else if size == Sz16 { r := Ok(2); } else if size == Sz32 { r := Ok(4); }
        else { r := Halted(Spin); }
    case KIpRel =>
      if size == Sz8 {
        r := Ok(1);
        if |text| >= 1 { shown := Target(Wrap32(vaddr + 1 + Signed8(text[0]))); }
      } else if size == Sz16 {
        r := Ok(2);
        if |text| >= 2 { shown := Target(Wrap32(vaddr + 2 + Signed16(Bytes16(text[0], text[1])))); }
      } else if size == Sz32 {
        r := Ok(4);
        if |text| >= 4 { shown := Target(Wrap32(vaddr + 4 + Bytes32(text[0], text[1], text[2], text[3]))); }
      } else {
        r := Halted(Spin);
      }
    case KOffset => r := Ok(if wideAddress then 4 else 2);
    case _ => r := Ok(0);
  }

  /** dis386 from the ModR/M byte on, with `size` running along. */
  method DisBody(code: seq<u8>, vaddr: int, start: nat, inst: Op, wide: bool, wideAddress: bool)
      returns (r: Result<nat>, shown: ShownOperands)
    requires start <= |code|
    ensures r == Longer(BodyLength(code[start..], inst, wide, wideAddress), start)
    ensures r.Ok? ==> shown == BodyShows(code[start..], inst, vaddr + start, wide, wideAddress)
  {
    hide Rm32Length, Rm16Length, OperandLength, ShownOperand;
    ghost var body := code[start..];
    shown := ShownOperands(Other, Other, Other);
    var size := start;
    var text := code[start..];
    if UsesModrm(inst) {
      if |code| <= size { return Halted(HostUndefined), shown; }
      var modrm := code[size];
      size := size + 1;
      text := code[size..];
      assert body[0] == modrm && body[1..] == text;
      var rm: Result<nat>;
      if wideAddress {
        rm := DisRm32(text, ModField(modrm), RmOf(modrm));
      } else {
        rm := DisRm16(text, ModField(modrm), RmOf(modrm));
      }
      if rm.Halted? { return Halted(rm.why), shown; }
      size := size + rm.value;
    }
    var n, dest := DisOperand(text, vaddr + size, inst.dest, wide, wideAddress);
    if n.Halted? { return Halted(n.why), shown; }
    size := size + n.value;
    var src1;
    n, src1 := DisOperand(text, vaddr + size, inst.src1, wide, wideAddress);
    if n.Halted? { return Halted(n.why), shown; }
    size := size + n.value;
    var src2;
    n, src2 := DisOperand(text, vaddr + size, inst.src2, wide, wideAddress);
    if n.Halted? { return Halted(n.why), shown; }
    size := size + n.value;
    shown := ShownOperands(dest, src1, src2);
    r := if size <= |code| then Ok(size) else Halted(HostUndefined);
  }

  /** dis386: prefixes, opcode and body. */
  method Dis386(code: seq<u8>, vaddr: int, wide: bool, wideAddress: bool) returns (r: Result<nat>, shown: ShownOperands)
    ensures r == Length(code, wide, wideAddress)
    ensures r.Ok? ==> shown == Shows(code, vaddr, wide, wideAddress)
    decreases code
  {
    hide InstructionTable, ExtendedInstructionTable, BodyLength, BodyShows;
    shown := ShownOperands(Other, Other, Other);
    if |code| == 0 { return Halted(HostUndefined), shown; }
    var inst := InstructionTable(code[0]);
    var size := 1;
    match inst.opType {
      case OpLock | OpRepez | OpRepne =>
        r, shown := Dis386(code[1..], vaddr + 1, wide, wideAddress);
        return Longer(r, 1), shown;
      case OpSizeOverride =>
        r, shown := Dis386(code[1..], vaddr + 1, !wide, wideAddress);
        return Longer(r, 1), shown;
      case OpAddrOverride | OpSegmentOverride =>
        r, shown := Dis386(code[1..], vaddr + 1, wide, !wideAddress);
        return Longer(r, 1), shown;
      case OpExtended =>
        if |code| == 1 { return Halted(HostUndefined), shown; }
        inst := ExtendedInstructionTable(code[1]);
        size := size + 1;
        assert code[1..][1..] == code[2..];
      case _ =>
    }
    r, shown := DisBody(code, vaddr, size, inst, wide, wideAddress);
  }

  // ----- The bytes the interpreter sees -----

  /** `code` is what lies at CS:EIP, within the bus and without wrapping. */
  ghost predicate CodeIs(s: State, code: seq<u8>)
  {
    && CodeAddress(s) + |code| <= Span(s.mem)
    && forall k :: 0 <= k < |code| ==> s.mem[CodeAddress(s) + k] == code[k]
  }

  lemma CodeShifts(s: State, code: seq<u8>, k: nat)
    requires CodeIs(s, code) && k <= |code|
    ensures CodeIs(Skip(s, k), code[k..])
  {
    AddressShifts(s, k);
    hide CodeAddress, Wrap32;
    var a := CodeAddress(s) + k;
    if a < TWO32 { WrapSmall(a); } else { WrapEnd(); }
  }

  lemma WrapEnd()
    ensures Wrap32(TWO32) == 0
  {
  }

  lemma AddressShifts(s: State, k: nat)
    ensures CodeAddress(Skip(s, k)) == Wrap32(CodeAddress(s) + k)
  {
    hide Wrap32;
    WrapTwice(s.eip + k, s.segs[CS].base);
    WrapTwice(s.segs[CS].base + s.eip, k);
  }

  lemma SkipTwice(s: State, a: nat, b: nat)
    ensures Skip(Skip(s, a), b) == Skip(s, a + b)
    ensures Skip(s, 0) == s
  {
    hide Wrap32;
    WrapTwice(s.eip + a, b);
    WrapSmall(s.eip);
    assert s.eip + a + b == s.eip + (a + b);
  }

  lemma SameByte(s: State, code: seq<u8>)
    requires CodeIs(s, code) && |code| > 0
    ensures Code8(s) == code[0]
  {
    assert s.mem[CodeAddress(s) + 0] == code[0];
  }

  // ----- Agreement, for any instruction entry -----

  lemma Rm16Agrees(s: State, code: seq<u8>, modrm: u8, n: nat)
    requires Rm16Length(code, ModField(modrm), RmOf(modrm)) == Ok(n)
    ensures DecodeRm16(s, modrm).1 == Skip(s, n)
  {
    hide Code8, Code16, Wrap16, Skip, Displacement8, RmMem;
    SkipTwice(s, 2, 0);
    SkipTwice(s, 0, 0);
  }

  lemma Rm32Agrees(s: State, code: seq<u8>, modrm: u8, n: nat, d: Decoded, t: State)
    requires CodeIs(s, code) && Rm32Length(code, ModField(modrm), RmOf(modrm)) == Ok(n)
    requires DecodeRm32(s, modrm) == Ok((d, t))
    ensures t == Skip(s, n)
  {
    hide CodeIs, Code8, Code32, Skip, Displacement8, RmMem, RmBase32, SibLength;
    var (mod, rm) := (ModField(modrm), RmOf(modrm));
    SkipTwice(s, 0, 0);
    if mod != 3 {
      var base := if rm == 5 && mod == 0 then 4 else if rm == 4 then SibLength(code, mod).value else 0;
      var (offset, sr, u) := RmBase32(s, mod, rm).value;
      RmBaseAgrees(s, code, mod, rm, base, u);
      SkipTwice(s, base, DisplacementLength(mod, true));
      SkipTwice(u, 0, 0);
    }
  }

  lemma RmBaseAgrees(s: State, code: seq<u8>, mod: nat, rm: RegIndex, base: nat, u: State)
    requires CodeIs(s, code) && RmBase32(s, mod, rm).Ok? && RmBase32(s, mod, rm).value.2 == u
    requires base == (if rm == 5 && mod == 0 then 4 else if rm == 4 && SibLength(code, mod).Ok?
        then SibLength(code, mod).value else 0)
    requires rm == 4 ==> SibLength(code, mod).Ok?
    ensures u == Skip(s, base)
  {
    hide CodeIs, Code8, Code32, Skip;
    SkipTwice(s, 0, 0);
    if rm == 4 {
      SameByte(s, code);
      SkipTwice(s, 1, 4);
    }
  }

  predicate ReadsCode(k: Kind) { k.KSimm? || k.KImm? || k.KIpRel? || k.KOffset? || k.KFarPtr? }

  lemma ModrmAgrees(s: State, code: seq<u8>, inst: Op, n: nat, reg: RegIndex, rm: Decoded, t: State)
    requires CodeIs(s, code) && ModrmLength(code, inst, AddrSize32(s)) == Ok(n)
    requires DecodeModrm(s, inst) == Ok((reg, rm, t))
    ensures t == Skip(s, n)
  {
    hide CodeIs, Code8, Skip, DecodeRm16, DecodeRm32, Rm16Length, Rm32Length;
    SkipTwice(s, 0, 0);
    if UsesModrm(inst) {
      SameByte(s, code);
      CodeShifts(s, code, 1);
      var (modrm, u) := (code[0], Skip(s, 1));
      AddrSizeSkipped(s, 1);
      SkipTwice(s, 1, n - 1);
      var r := DecodeRm(u, modrm);
      assert r.Ok? && r.value.0 == rm && r.value.1 == t;
      if AddrSize32(s) {
        Rm32Agrees(u, code[1..], modrm, n - 1, rm, t);
      } else {
        Rm16Agrees(u, code[1..], modrm, n - 1);
      }
    }
  }

  lemma AddrSizeSkipped(s: State, n: nat)
    ensures AddrSize32(Skip(s, n)) == AddrSize32(s) && OpSize32(Skip(s, n)) == OpSize32(s)
  {
  }

  // ----- Branch targets -----

  /** A relative operand is the target that is shown, if the text is at the address shown. */
  lemma TargetsAgree(s: State, code: seq<u8>, rm: Decoded, reg: RegIndex, op: Operand, vaddr: int, d: Decoded, t: State)
    requires CodeIs(s, code) && op.kind.KIpRel? && Wrap32(vaddr) == s.eip
    requires DecodeOperand(s, rm, reg, op) == Ok((d, t))
    ensures var shown := ShownOperand(code, vaddr, op, OpSize32(s));
        d.kind.DImm? && (shown.Target? ==> d.id == shown.address)
  {
    hide CodeAddress, Wrap32, Signed8, Signed16, Bytes16, Bytes32;
    FirstBytes(s, code);
    var n := ImmBytes(ActualSize(op.size, OpSize32(s)));
    var imm := SignedImm(s, ActualSize(op.size, OpSize32(s)));
    WrapTwice(s.eip + n, imm);
    WrapTwice(vaddr, n + imm);
    if |code| > 0 { WrapBoth(vaddr + n, Signed8(code[0])); }
    if |code| > 1 { WrapBoth(vaddr + n, Signed16(Bytes16(code[0], code[1]))); }
    WrapTwice(vaddr + n, imm);
  }

  lemma WrapBoth(x: int, y: int)
    ensures Wrap32(Wrap32(x) + Wrap32(y)) == Wrap32(x + y)
  {
    WrapTwice(x, Wrap32(y));
    WrapTwice(y, x);
  }

  /** The first bytes of the text, one, two or four at a time. */
  lemma FirstBytes(s: State, code: seq<u8>)
    requires CodeIs(s, code)
    ensures |code| >= 1 ==> Code8(s) == code[0]
    ensures |code| >= 2 ==> Code16(s) == Bytes16(code[0], code[1])
    ensures |code| >= 4 ==> Code32(s) == Bytes32(code[0], code[1], code[2], code[3])
  {
    hide Bytes16, Bytes32, CodeAddress;
    var a := CodeAddress(s);
    assert |code| >= 1 ==> s.mem[a + 0] == code[0];
    assert |code| >= 2 ==> s.mem[a + 1] == code[1];
    assert |code| >= 4 ==> s.mem[a + 2] == code[2] && s.mem[a + 3] == code[3];
  }

  // ----- Whole instructions -----

  predicate FarPointer(b: u8) { b == 0x9A || b == 0xEA }
  predicate RepPrefix(b: u8) { b == 0xF2 || b == 0xF3 }

  predicate EntryComparable(b: u8, inst: Op)
  {
    && (!FarPointer(b) ==> !inst.dest.kind.KFarPtr? && !inst.src1.kind.KFarPtr? && !inst.src2.kind.KFarPtr?)
    && (inst.opType.OpAluSpecial? && inst.subType == ALU_MULTI ==>
          (b == 0xF6 || b == 0xF7) && !ReadsCode(inst.src1.kind) && !ReadsCode(inst.src2.kind)
            && !ReadsCode(inst.dest.kind)
          && UsesModrm(inst))
    && (inst.opType.OpExtended? <==> b == 0x0F)
    && (inst.opType.OpRepez? || inst.opType.OpRepne? <==> RepPrefix(b))
  }

  lemma TableComparable(b: u8)
    ensures EntryComparable(b, InstructionTable(b))
  {
    hide Rows00To3F, Rows40To7F, Rows80ToBF, RowsC0ToFF, EntryComparable;
    if b < 0x40 { Comparable0(b); }
    else if b < 0x80 { Comparable4(b); }
    else if b < 0xC0 { Comparable8(b); }
    else if b < 0xE0 { ComparableC(b); }
    else { ComparableE(b); }
  }

  lemma Comparable0(b: u8)
    requires b < 0x40
    ensures EntryComparable(b, Rows00To3F(b))
  {
  }

  lemma Comparable4(b: u8)
    requires 0x40 <= b < 0x80
    ensures EntryComparable(b, Rows40To7F(b))
  {
  }

  lemma Comparable8(b: u8)
    requires 0x80 <= b < 0xC0
    ensures EntryComparable(b, Rows80ToBF(b))
  {
  }

  lemma ComparableC(b: u8)
    requires 0xC0 <= b < 0xE0
    ensures EntryComparable(b, RowsC0ToFF(b))
  {
  }

  lemma ComparableE(b: u8)
    requires 0xE0 <= b
    ensures EntryComparable(b, RowsC0ToFF(b))
  {
  }

  lemma BodyByOperands(code: seq<u8>, inst: Op, t: OpType, wide: bool, wideAddress: bool)
    ensures BodyLength(code, inst.(opType := t), wide, wideAddress) == BodyLength(code, inst, wide, wideAddress)
  {
    hide OperandLength, Rm16Length, Rm32Length;
  }

  /** How many bytes the opcode takes beyond its first. */
  function OpcodeTail(opcode: u8): nat { if opcode == 0x0F || RepPrefix(opcode) then 1 else 0 }

  /** The disassembler's count for an instruction without prefixes, by kind of opcode. */
  lemma CountsPlain(opcode: u8, rest: seq<u8>, wide: bool, wideAddress: bool)
    requires OpcodeTail(opcode) == 0 && !IsPrefix(opcode)
    ensures Length([opcode] + rest, wide, wideAddress) ==
        Longer(BodyLength(rest, InstructionTable(opcode), wide, wideAddress), 1)
  {
    TableComparable(opcode);
    hide InstructionTable, BodyLength;
    assert ([opcode] + rest)[1..] == rest;
  }

  lemma CountsExtended(rest: seq<u8>, wide: bool, wideAddress: bool)
    ensures Length([0x0F] + rest, wide, wideAddress)
         == if |rest| == 0 then Halted(HostUndefined)
            else Longer(BodyLength(rest[1..], ExtendedInstructionTable(rest[0]), wide, wideAddress), 2)
  {
    TableComparable(0x0F);
    hide InstructionTable, BodyLength, ExtendedInstructionTable;
    assert ([0x0F] + rest)[1..] == rest;
  }

  lemma CountsRep(opcode: u8, rest: seq<u8>, wide: bool, wideAddress: bool)
    requires RepPrefix(opcode) && |rest| > 0 && OpcodeTail(rest[0]) == 0 && !IsPrefix(rest[0])
    ensures Length([opcode] + rest, wide, wideAddress)
         == Longer(BodyLength(rest[1..], InstructionTable(rest[0]), wide, wideAddress), 2)
  {
    TableComparable(opcode);
    CountsPlain(rest[0], rest[1..], wide, wideAddress);
    hide InstructionTable, BodyLength;
    assert ([opcode] + rest)[1..] == rest == [rest[0]] + rest[1..];
  }

  lemma SkippedTo(s: State, k: nat, m: nat)
    ensures Wrap32(Skip(s, k).eip + m) == Wrap32(s.eip + k + m)
  {
    WrapTwice(s.eip + k, m);
  }

  lemma CodeByFields(s: State, t: State, code: seq<u8>)
    requires CodeIs(s, code) && s.eip == t.eip && s.segs == t.segs && s.mem == t.mem
    ensures CodeIs(t, code)
  {
  }

  lemma SizesBehindPrefixes(s: State, b: State, ps: seq<u8>)
    requires b.segs == s.segs && b.opOverride == (0x66 in ps) && b.addrOverride == (0x67 in ps)
    ensures OpSize32(b) == (s.segs[CS].use32 != (0x66 in ps))
    ensures AddrSize32(b) == (s.segs[CS].use32 != (0x67 in ps))
  {
  }

  // ----- The linear sweep -----

  /** Where the debugger's listing stands after `k` instructions: each entry starts where the last one ended. */
  function Sweep(code: seq<u8>, k: nat, wide: bool): Result<nat>
  {
    if k == 0 then Ok(0)
    else
      var at :- Sweep(code, k - 1, wide);
      if at > |code| then Halted(HostUndefined) else Longer(Length(code[at..], wide, wide), at)
  }

  /** `states` is straight-line execution: every step falls through, and between steps the text at the first
      instruction's address is still `code`. */
  ghost predicate StraightLine(states: seq<State>, code: seq<u8>, start: u32, env: Env)
  {
    && |states| > 0 && |code| <= TWO32 && states[0].eip == start
    && (forall i :: 0 <= i < |states| ==> NothingPending(states[i]) && CodeIs(states[i].(eip := start), code))
    && (forall i :: 0 <= i < |states| ==> states[i].segs[CS] == states[0].segs[CS])
    && (forall i {:trigger states[i]} :: 0 < i < |states| ==>
          Step.Step(states[i - 1], env) == Ok(states[i]) && states[i].eip == states[i].oldEip)
  }

  lemma StepOfLine(states: seq<State>, code: seq<u8>, start: u32, env: Env, k: nat)
    requires StraightLine(states, code, start, env) && k < |states|
    ensures |code| <= TWO32 && states[0].eip == start
    ensures k > 0 ==> NothingPending(states[k - 1]) && CodeIs(states[k - 1].(eip := start), code)
    ensures k > 0 ==> states[k - 1].segs[CS] == states[0].segs[CS]
    ensures k > 0 ==> Step.Step(states[k - 1], env) == Ok(states[k]) && states[k].eip == states[k].oldEip
  {
    hide Step.Step, CodeIs, NothingPending;
  }

  lemma SweepStarts(code: seq<u8>, wide: bool)
    ensures Sweep(code, 0, wide) == Ok(0)
  {
  }

  lemma SweepUnfolds(code: seq<u8>, k: nat, wide: bool, at: nat)
    requires k > 0 && Sweep(code, k - 1, wide) == Ok(at) && at <= |code|
    ensures Sweep(code, k, wide) == Longer(Length(code[at..], wide, wide), at)
  {
    hide Longer, Length;
  }

}
