/** The state of an emulated i386 with its bus, as a value, and the effect of each operation of
    maverick/run386.c on it. `Run386.Processor` is the class that performs these effects in place. */
module Machine {
  import opened Words
  import opened I386

  /** How a C function fails to return: a `while(1)`, host-undefined behaviour (an index past an array, a
      negative shift count, a host divide fault), a service of the host that is not part of this model, or
      prefix recursion without end. */
  datatype Halt = Spin | HostUndefined | HostService(vector: u32) | EndlessPrefixes

  datatype Result<+T> = Ok(value: T) | Halted(why: Halt) {
    predicate IsFailure() { Halted? }

    function PropagateFailure<U>(): Result<U>
      requires Halted?
    {
      Halted(why)
    }

    function Extract(): T
      requires Ok?
    {
      value
    }
  }

  // ----- The bus -----

  /** maverick allocates 1 MB and masks addresses to 20 bits; locutus adds a flat address to the base of its memory, of
      which the host has reserved the first 512 MB. Three more host bytes follow, which a word access starting at the
      last addresses reaches. */
  const BUS20 := 0x10_0000
  const BUS32 := 0x1_0000_0000
  const SLACK := 3

  type Memory = m: seq<u8> | |m| == BUS20 + SLACK || |m| == BUS32 + SLACK witness seq(BUS20 + SLACK, i => 0)

  function Span(m: Memory): nat { |m| - SLACK }

  function Translate(m: Memory, a: u32): (t: nat)
    ensures t + SLACK < |m|
    ensures a < Span(m) ==> t == a
  {
    if |m| == BUS20 + SLACK then a % BUS20 else a
  }

  function Bytes16(lo: u8, hi: u8): u16 { lo + TWO8 * hi }

  function Bytes32(b0: u8, b1: u8, b2: u8, b3: u8): u32
  {
    b0 + TWO8 * b1 + 0x1_0000 * b2 + 0x100_0000 * b3
  }

  function Read8(m: Memory, a: u32): u8 { m[Translate(m, a)] }

  function Read16(m: Memory, a: u32): u16
  {
    var t := Translate(m, a);
    Bytes16(m[t], m[t + 1])
  }

  function Read32(m: Memory, a: u32): u32
  {
    var t := Translate(m, a);
    Bytes32(m[t], m[t + 1], m[t + 2], m[t + 3])
  }

  function ByteOf(v: int, k: nat): u8
    requires k < 4
  {
    match k
    case 0 => v % TWO8
    case 1 => v / TWO8 % TWO8
    case 2 => v / 0x1_0000 % TWO8
    case _ => v / 0x100_0000 % TWO8
  }

  /** Store the low `n` bytes of `v`, least significant first, from index `t`. */
  function Store(m: seq<u8>, t: nat, v: int, n: nat): (r: seq<u8>)
    requires n <= 4 && t + n <= |m|
    ensures |r| == |m|
    ensures forall i :: 0 <= i < |m| ==> r[i] == if t <= i < t + n then ByteOf(v, i - t) else m[i]
  {
    if n == 0 then m else Store(m, t, v, n - 1)[t + n - 1 := ByteOf(v, n - 1)]
  }

  function Write8(m: Memory, a: u32, v: int): (r: Memory)
    ensures |r| == |m|
  {
    Store(m, Translate(m, a), v, 1)
  }

  function Write16(m: Memory, a: u32, v: int): (r: Memory)
    ensures |r| == |m|
  {
    Store(m, Translate(m, a), v, 2)
  }

  function Write32(m: Memory, a: u32, v: int): (r: Memory)
    ensures |r| == |m|
  {
    Store(m, Translate(m, a), v, 4)
  }


  /** The low byte, word or dword of a value is the sum of its stored bytes. */
  lemma BytesOfWord(v: int)
    ensures ByteOf(v, 0) == Wrap8(v)
    ensures Bytes16(ByteOf(v, 0), ByteOf(v, 1)) == Wrap16(v)
    ensures Bytes32(ByteOf(v, 0), ByteOf(v, 1), ByteOf(v, 2), ByteOf(v, 3)) == Wrap32(v)
  {
    var (q1, q2, q3) := (v / TWO8, v / 0x1_0000, v / 0x100_0000);
    assert q2 == q1 / TWO8 && q3 == q2 / TWO8;
    assert v == Bytes16(ByteOf(v, 0), ByteOf(v, 1)) + TWO16 * q2;
    DivModUnique(v, q2, Bytes16(ByteOf(v, 0), ByteOf(v, 1)), TWO16);
    assert v == Bytes32(ByteOf(v, 0), ByteOf(v, 1), ByteOf(v, 2), ByteOf(v, 3)) + TWO32 * (q3 / TWO8);
    DivModUnique(v, q3 / TWO8, Bytes32(ByteOf(v, 0), ByteOf(v, 1), ByteOf(v, 2), ByteOf(v, 3)), TWO32);
  }

  /** A store reads back at its width, truncated. */
  lemma ReadBack(m: Memory, a: u32, v: int)
    ensures Read8(Write8(m, a, v), a) == Wrap8(v)
    ensures Read16(Write16(m, a, v), a) == Wrap16(v)
    ensures Read32(Write32(m, a, v), a) == Wrap32(v)
  {
    hide ByteOf, Wrap8, Wrap16, Wrap32, Bytes16, Bytes32, Store;
    BytesOfWord(v);
  }

  // ----- The processor -----

  type SegIndex = i: int | 0 <= i < 6

  datatype Seg = Seg(selector: u16, base: u32, use32: bool)

  type Regs = r: seq<u32> | |r| == 8 witness seq(8, i => 0)
  type Segs = r: seq<Seg> | |r| == 6 witness seq(6, i => Seg(0, 0, false))
  type ControlRegs = r: seq<u32> | |r| == 9 witness seq(9, i => 0)

  datatype State = State(
    regs: Regs, eip: u32, oldEip: u32, eflags: Bits32, segs: Segs, cr: ControlRegs,
    opOverride: bool, addrOverride: bool, overridingSgmt: bool, sgmtOverride: SegIndex,
    stepsRun: int, mem: Memory)

  /** A host call yields EAX and may store bytes anywhere in emulated memory. */
  datatype HostResult = HostResult(eax: u32, stores: map<nat, u8>)

  datatype Env = Env(host: (u32, u32, Memory) -> HostResult, port: u16 -> u32)

  /** What only the prefix handler, decoding and segment loads may change. */
  ghost predicate SameControl(s: State, t: State)
  {
    s.segs == t.segs && SameButSegs(s, t)
  }

  ghost predicate SameButSegs(s: State, t: State)
  {
    && s.cr == t.cr && s.oldEip == t.oldEip && s.stepsRun == t.stepsRun
    && s.opOverride == t.opOverride && s.addrOverride == t.addrOverride
    && s.overridingSgmt == t.overridingSgmt && s.sgmtOverride == t.sgmtOverride
  }

  /** MODE(cs) ^ op_override and MODE(cs) ^ addr_override. */
  predicate OpSize32(s: State) { s.segs[CS].use32 != s.opOverride }
  predicate AddrSize32(s: State) { s.segs[CS].use32 != s.addrOverride }

  function Linear(s: State, seg: SegIndex, offset: int): u32 { Wrap32(s.segs[seg].base + offset) }

  function Low8(r: u32): u8 { r % TWO8 }
  function High8(r: u32): u8 { r / TWO8 % TWO8 }
  function Low16(r: u32): u16 { r % TWO16 }

  function PutLow8(r: u32, v: int): u32 { r - Low8(r) + Wrap8(v) }
  function PutHigh8(r: u32, v: int): u32 { r - TWO8 * High8(r) + TWO8 * Wrap8(v) }
  function PutLow16(r: u32, v: int): u32 { r - Low16(r) + Wrap16(v) }

  /** A register is its upper half and two bytes. */
  lemma Parts(high: int, h: u8, l: u8)
    ensures var x := TWO16 * high + TWO8 * h + l;
            x % TWO8 == l && x / TWO8 % TWO8 == h && x % TWO16 == TWO8 * h + l && x / TWO16 == high
  {
    var x := TWO16 * high + TWO8 * h + l;
    DivModUnique(x, TWO8 * high + h, l, TWO8);
    DivModUnique(TWO8 * high + h, high, h, TWO8);
    DivModUnique(x, high, TWO8 * h + l, TWO16);
  }

  lemma SplitRegister(r: u32)
    ensures r == TWO16 * (r / TWO16) + TWO8 * High8(r) + Low8(r)
  {
    Parts(r / TWO8 / TWO8, High8(r), Low8(r));
  }

  /** A partial register write changes its own bits and no others. */
  lemma PartialWrites(r: u32, v: int)
    ensures Low8(PutLow8(r, v)) == Wrap8(v) && High8(PutLow8(r, v)) == High8(r)
    ensures High8(PutHigh8(r, v)) == Wrap8(v) && Low8(PutHigh8(r, v)) == Low8(r)
    ensures Low16(PutLow16(r, v)) == Wrap16(v)
    ensures PutLow8(r, v) / TWO16 == PutHigh8(r, v) / TWO16 == PutLow16(r, v) / TWO16 == r / TWO16
    ensures PutLow16(r, v) == PutHigh8(PutLow8(r, v), v / TWO8)
  {
    var (q, h, l) := (r / TWO16, High8(r), Low8(r));
    SplitRegister(r);
    Parts(q, h, l);
    Parts(q, h, Wrap8(v));
    Parts(q, Wrap8(v), l);
    Parts(v / TWO8 / TWO8, Wrap8(v / TWO8), Wrap8(v));
    Parts(q, Wrap8(v / TWO8), Wrap8(v));
  }

  type RegIndex = i: int | 0 <= i < 8

  function Reg8(s: State, id: RegIndex): u8
  {
    if id < 4 then Low8(s.regs[id]) else High8(s.regs[id - 4])
  }

  function Reg16(s: State, id: RegIndex): u16 { Low16(s.regs[id]) }

  function SetReg8(s: State, id: RegIndex, v: int): State
  {
    if id < 4 then s.(regs := s.regs[id := PutLow8(s.regs[id], v)])
    else s.(regs := s.regs[id - 4 := PutHigh8(s.regs[id - 4], v)])
  }

  function SetReg16(s: State, id: RegIndex, v: int): State
  {
    s.(regs := s.regs[id := PutLow16(s.regs[id], v)])
  }

  function SetReg32(s: State, id: RegIndex, v: int): State { s.(regs := s.regs[id := Wrap32(v)]) }

  // ----- Stack primitives -----

  /** The stack width follows SS alone. ESP moves by 32-bit arithmetic in either mode. */
  function StackWidth(s: State): nat { if s.segs[SS].use32 then 4 else 2 }

  function Push(s: State, v: int): (t: State)
    ensures SameControl(s, t) && t.eip == s.eip && t.eflags == s.eflags
  {
    var esp := Wrap32(s.regs[ESP] - StackWidth(s));
    var a := Linear(s, SS, esp);
    s.(regs := s.regs[ESP := esp],
       mem := if s.segs[SS].use32 then Write32(s.mem, a, v) else Write16(s.mem, a, v))
  }

  function Top(s: State): u32
  {
    var a := Linear(s, SS, s.regs[ESP]);
    if s.segs[SS].use32 then Read32(s.mem, a) else Read16(s.mem, a)
  }

  /** The state after a pop; the popped value is `Top` of the state before. */
  function Drop(s: State): State { SetReg32(s, ESP, s.regs[ESP] + StackWidth(s)) }

  // ----- Operands -----

  datatype DecodedKind = DNone | DMem | DReg | DSegReg | DCtrlReg | DImm | DEdxEax

  datatype Decoded = Decoded(kind: DecodedKind, id: u32, size: Size, sr: SegIndex)

  function ReadSource(s: State, d: Decoded): Result<u64>
  {
    match d.kind
    case DNone => Ok(0)
    case DImm => Ok(d.id)
    case DEdxEax =>
      if d.size == Sz32 then Ok(Reg16(s, EDX) * TWO16 + Reg16(s, EAX)) else Ok(s.regs[EDX] * TWO32 + s.regs[EAX])
    case DMem =>
      var a := Linear(s, d.sr, d.id);
      (match d.size
       case Sz8 => Ok(Read8(s.mem, a))
       case Sz16 => Ok(Read16(s.mem, a))
       case Sz32 => Ok(Read32(s.mem, a))
       case _ => Halted(Spin))
    case DReg =>
      if d.id >= 8 then Halted(HostUndefined) else
      (match d.size
       case Sz8 => Ok(Reg8(s, d.id))
       case Sz16 => Ok(Reg16(s, d.id))
       case Sz32 => Ok(s.regs[d.id])
       case _ => Halted(Spin))
    case DSegReg => if d.id < 6 then Ok(s.segs[d.id].selector) else Halted(HostUndefined)
    case DCtrlReg => if d.id < 9 then Ok(s.cr[d.id]) else Halted(HostUndefined)
  }

  /** Neither a segment register nor a control register. */
  predicate PlainDest(d: Decoded) { !d.kind.DSegReg? && !d.kind.DCtrlReg? }

  function WriteDest(s: State, d: Decoded, v: int): (r: Result<State>)
    ensures r.Ok? && PlainDest(d) ==> SameControl(s, r.value)
    ensures r.Ok? ==> r.value.eip == s.eip && r.value.eflags == s.eflags
  {
    match d.kind
    case DNone => Ok(s)
    case DEdxEax =>
      (match d.size
       case Sz32 => Ok(SetReg16(SetReg16(s, EDX, v / TWO16), EAX, v))
       case Sz64 => Ok(SetReg32(SetReg32(s, EDX, v / TWO32), EAX, v))
       case _ => Ok(s))
    case DMem =>
      var a := Linear(s, d.sr, d.id);
      (match d.size
       case Sz8 => Ok(s.(mem := Write8(s.mem, a, v)))
       case Sz16 => Ok(s.(mem := Write16(s.mem, a, v)))
       case Sz32 => Ok(s.(mem := Write32(s.mem, a, v)))
       case _ => Halted(Spin))
    case DReg =>
      if d.id >= 8 then Halted(HostUndefined) else
      (match d.size
       case Sz8 => Ok(SetReg8(s, d.id, v))
       case Sz16 => Ok(SetReg16(s, d.id, v))
       case Sz32 => Ok(SetReg32(s, d.id, v))
       case _ => Halted(Spin))
    case DSegReg =>
      if d.id < 6 then Ok(s.(segs := s.segs[d.id := s.segs[d.id].(selector := Wrap16(v))]))
      else Halted(HostUndefined)
    case DCtrlReg =>
      if d.id < 9 then Ok(s.(cr := s.cr[d.id := Wrap32(v)])) else Halted(HostUndefined)
    case DImm => Halted(Spin)
  }

  // ----- Flags -----

  /** The sizes the Set* flag macros accept; any other spins. */
  predicate FlagSize(size: Size) { size.Sz8? || size.Sz16? || size.Sz32? }

  predicate SignBit(v: int, size: Size)
  {
    match size
    case Sz8 => TestBit(v, 0x80)
    case Sz16 => TestBit(v, 0x8000)
    case _ => TestBit(v, 0x8000_0000)
  }

  /** SetCF: the bit just above the operand, which for a 32-bit value is never set. */
  predicate CarryBit(v: u32, size: Size)
  {
    match size
    case Sz8 => TestBit(v, TWO8)
    case Sz16 => TestBit(v, TWO16)
    case _ => TestBit(v, TWO32)
  }

  predicate ZeroBits(v: int, size: Size)
  {
    match size
    case Sz8 => Wrap8(v) == 0
    case Sz16 => Wrap16(v) == 0
    case _ => Wrap32(v) == 0
  }

  function SetSZP(e: Bits32, v: int, size: Size): Bits32
  {
    e[SIGN := SignBit(v, size)][ZERO := ZeroBits(v, size)][PARITY := !OddParity(v)]
  }

  /** SetAF: bit 4 of x ^ y ^ z. */
  function SetAux(e: Bits32, x: u32, y: u32, z: u32): Bits32
  {
    e[AUX := TestBit(x, 16) != (TestBit(y, 16) != TestBit(z, 16))]
  }

  predicate OverflowAdd(a: u32, b: u32, d: u32, size: Size)
  {
    SignBit(a, size) == SignBit(b, size) && SignBit(a, size) != SignBit(d, size)
  }

  predicate OverflowSub(a: u32, b: u32, d: u32, size: Size)
  {
    SignBit(d, size) == SignBit(b, size) && SignBit(a, size) != SignBit(d, size)
  }

  function LogicFlags(e: Bits32, res: int, size: Size): Bits32
  {
    SetSZP(e[CARRY := false][OVERFLOW := false], res, size)
  }

  function AddFlags(e: Bits32, a: u32, b: u32, res: u32, size: Size): Bits32
  {
    SetAux(SetSZP(e, res, size), a, b, res)[OVERFLOW := OverflowAdd(a, b, res, size)][CARRY := CarryBit(res, size)]
  }

  function SubFlags(e: Bits32, a: u32, b: u32, res: u32, size: Size): Bits32
  {
    SetAux(SetSZP(e, res, size), a, b, res)[OVERFLOW := OverflowSub(a, b, res, size)][CARRY := CarryBit(res, size)]
  }

  function Bit(b: bool): nat { if b then 1 else 0 }

  // ----- ALU -----

  /** The result and flags of one `do_alu_op` operation on two 32-bit C values. */
  function AluResult(op: nat, e: Bits32, a: u32, b: u32, size: Size): Result<(u32, Bits32)>
  {
    if !FlagSize(size) then Halted(Spin)
    else match op
      case 0 => var r := Wrap32(a + b); Ok((r, AddFlags(e, a, b, r, size)))
      case 1 => var r := Or32(a, b); Ok((r, LogicFlags(e, r, size)))
      case 2 => var r := Wrap32(Bit(e[CARRY]) + a + b); Ok((r, AddFlags(e, a, b, r, size)))
      case 3 => var r := Wrap32(a - b - Bit(e[CARRY])); Ok((r, SubFlags(e, a, b, r, size)))
      case 4 => var r := And32(a, b); Ok((r, LogicFlags(e, r, size)))
      case 5 | 7 => var r := Wrap32(a - b); Ok((r, SubFlags(e, a, b, r, size)))
      case 6 => var r := Xor32(a, b); Ok((r, LogicFlags(e, r, size)))
      case _ => Halted(Spin)
  }

  function DoAlu(s: State, op: nat, dst: Decoded, src1: Decoded, src2: Decoded, reg: nat): (r: Result<State>)
    ensures r.Ok? && PlainDest(dst) ==> SameControl(s, r.value)
  {
    var actual := if op == ALU_MULTI then reg else op;
    var a :- ReadSource(s, src1);
    var b :- ReadSource(s, src2);
    var (res, e) :- AluResult(actual, s.eflags, Wrap32(a), Wrap32(b), src1.size);
    if actual == ALU_CMP then Ok(s.(eflags := e)) else WriteDest(s.(eflags := e), dst, res)
  }

  /** `num_bits` of `do_alu_special`. */
  function OperandBits(size: Size): nat
  {
    match size
    case Sz8 => 8
    case Sz32 => 32
    case _ => 16
  }

  /** Low result, high half or remainder, and flags. */
  datatype Special = Special(res: int, rem: int, eflags: Bits32)

  function SignedAt(v: int, bits: nat): int
  {
    match bits
    case 8 => Signed8(v)
    case 16 => Signed16(v)
    case _ => Signed32(v)
  }

  /** The dividend of IDIV is twice as wide as its operand. */
  function SignedDouble(v: int, bits: nat): int
  {
    match bits
    case 8 => Signed16(v)
    case 16 => Signed32(v)
    case _ => Signed64(v)
  }

  function HighPart(v: int, bits: nat): int
  {
    match bits
    case 8 => v / TWO8
    case 16 => v / TWO16
    case _ => v / TWO32
  }

  function SpecialResult(op: nat, e: Bits32, a: u64, b: u64, bits: nat, flagSize: Size): Result<Special>
  {
    match op
    case 0 => // TEST
      var r := And32(Wrap32(a), Wrap32(b));
      if FlagSize(flagSize) then Ok(Special(r, 0, LogicFlags(e, r, flagSize))) else Halted(Spin)
    case 2 => Ok(Special(TWO64 - 1 - a, 0, e)) // NOT
    case 3 => // NEG
      if FlagSize(flagSize) then Ok(Special(-(a as int), 0, SetSZP(e[CARRY := a == 0], -(a as int), flagSize)))
        else Halted(Spin)
    case 4 => var p := Wrap64(a * b); Ok(Special(p, HighPart(p, bits), e)) // MUL
    case 5 => var p := SignedAt(a, bits) * SignedAt(b, bits); Ok(Special(p, HighPart(p, bits), e)) // IMUL
    case 6 => if b == 0 then Halted(HostUndefined) else Ok(Special(a / b, a % b, e)) // DIV
    case 7 => // IDIV
      var (n, d) := (SignedDouble(a, bits), SignedAt(b, bits));
      if d == 0 || (d == -1 && bits == 16 && n == -0x8000_0000)
         || (d == -1 && bits == 32 && n == -0x8000_0000_0000_0000) then Halted(HostUndefined)
      else Ok(Special(TruncDiv(n, d), TruncMod(n, d), e))
    case _ => Halted(Spin)
  }

  /** `wb & WRITE_DX`, over the flag values the table and `fixup_f6` produce. */
  predicate WritesDx(flags: nat) { flags == WRITE_DX }

  function WriteHigh(s: State, size: Size, rem: int): (r: Result<State>)
    ensures r.Ok? ==> SameControl(s, r.value)
  {
    match size
    case Sz8 => Ok(SetReg8(s, EAX + 4, rem))
    case Sz16 => Ok(SetReg16(s, EDX, rem))
    case Sz32 => Ok(SetReg32(s, EDX, rem))
    case _ => Halted(Spin)
  }

  function DoAluSpecial(s: State, op: nat, dst: Decoded, src1: Decoded, src2: Decoded, flags: nat)
    : (r: Result<State>)
    ensures r.Ok? && PlainDest(dst) ==> SameControl(s, r.value)
  {
    var a :- ReadSource(s, src1);
    var b :- ReadSource(s, src2);
    var x :- SpecialResult(op, s.eflags, a, b, OperandBits(dst.size), src1.size);
    var t :- WriteDest(s.(eflags := x.eflags), dst, x.res);
    if WritesDx(flags) then WriteHigh(t, dst.size, x.rem) else Ok(t)
  }

  function DoIncDec(s: State, version: nat, dst: Decoded, src1: Decoded): (r: Result<State>)
    ensures r.Ok? && PlainDest(dst) ==> SameControl(s, r.value)
    ensures r.Ok? ==> r.value.eflags[CARRY] == s.eflags[CARRY]
  {
    var v :- ReadSource(s, src1);
    var a := Wrap32(v);
    if !FlagSize(src1.size) then Halted(Spin)
    else
      var res := if version == ID_INC then Wrap32(a + 1) else Wrap32(a - 1);
      var o := if version == ID_INC then OverflowAdd(a, 1, res, src1.size) else OverflowSub(a, 1, res, src1.size);
      WriteDest(s.(eflags := SetAux(SetSZP(s.eflags, res, src1.size), a, 1, res)[OVERFLOW := o]), dst, res)
  }

  /** SHL and SHR; the shifted value is a 32-bit C value and counts past 31 are undefined in C. */
  function DoShift(s: State, op: nat, dst: Decoded, src1: Decoded, src2: Decoded): (r: Result<State>)
    ensures r.Ok? && PlainDest(dst) ==> SameControl(s, r.value)
  {
    var n :- ReadSource(s, src2);
    var v :- ReadSource(s, src1);
    if op != SHL && op != SHR then Halted(Spin)
    else if Wrap8(n) >= 32 then Halted(HostUndefined)
    else
      var res := if op == SHL then Wrap32(ShiftLeft(Wrap32(v), Wrap8(n))) else ShiftRight(Wrap32(v), Wrap8(n));
      var e := if op == SHL && dst.size == Sz8 then s.eflags[CARRY := TestBit(res, TWO8)] else s.eflags;
      WriteDest(s.(eflags := e), dst, res)
  }

  function ShiftLeft(v: nat, n: nat): nat { if n == 0 then v else 2 * ShiftLeft(v, n - 1) }
  function ShiftRight(v: nat, n: nat): nat { if n == 0 then v else ShiftRight(v, n - 1) / 2 }

  // ----- Control transfer -----

  predicate JumpCondition(s: State, condition: nat)
  {
    var e := s.eflags;
    match condition
    case 0 => e[OVERFLOW]
    case 1 => !e[OVERFLOW]
    case 2 => e[CARRY]
    case 3 => !e[CARRY]
    case 4 => e[ZERO]
    case 5 => !e[ZERO]
    case 6 => e[CARRY] || e[ZERO]
    case 7 => !e[CARRY] && !e[ZERO]
    case 8 => e[SIGN]
    case 9 => !e[SIGN]
    case 10 => e[PARITY]
    case 11 => !e[PARITY]
    case 12 => e[SIGN] != e[OVERFLOW]
    case 13 => e[SIGN] == e[OVERFLOW]
    case 14 => e[ZERO] || e[SIGN] != e[OVERFLOW]
    case 15 => !e[ZERO] && e[SIGN] == e[OVERFLOW]
    case 16 => true
    case _ => if OpSize32(s) then s.regs[ECX] == 0 else Reg16(s, ECX) == 0
  }

  function DoJump(s: State, src: Decoded, condition: nat): (r: Result<State>)
    ensures r.Ok? ==> SameControl(s, r.value)
  {
    if !JumpCondition(s, condition) then Ok(s)
    else
      var target :- ReadSource(s, src);
      Ok(s.(eip := Wrap32(target)))
  }

  /** LOOP always counts in ECX. */
  function DoLoop(s: State, kind: nat, src: Decoded): (r: Result<State>)
    ensures r.Ok? ==> SameControl(s, r.value) && r.value.eflags == s.eflags
  {
    var target :- ReadSource(s, src);
    var t := SetReg32(s, ECX, s.regs[ECX] as int - 1);
    var zf := s.eflags[ZERO];
    if t.regs[ECX] != 0 && (kind == LOOP_NORMAL || (kind == LOOPNE && !zf) || (kind == LOOPE && zf))
    then Ok(t.(eip := Wrap32(target))) else Ok(t)
  }

  /** The target is read after the return address has been pushed. */
  function DoCallNear(s: State, src: Decoded): (r: Result<State>)
    ensures r.Ok? ==> SameControl(s, r.value)
  {
    var t := Push(s, s.eip);
    var target :- ReadSource(t, src);
    Ok(t.(eip := Wrap32(target)))
  }

  function DoRetNear(s: State, src: Decoded): (r: Result<State>)
    ensures r.Ok? ==> SameControl(s, r.value)
  {
    var n :- ReadSource(s, src);
    Ok(SetReg32(Drop(s), ESP, Drop(s).regs[ESP] + n).(eip := Top(s)))
  }

  /** INT: only the OS/2 call vector 0x80 is served here; the DOS and BIOS vectors are host I/O. */
  function DoInt(s: State, src: Decoded, env: Env): (r: Result<State>)
    ensures r.Ok? ==> SameControl(s, r.value)
  {
    var vector :- ReadSource(s, src);
    if Wrap32(vector) != 0x80 then Halted(HostService(Wrap32(vector)))
    else
      var h := env.host(s.regs[EAX], Wrap32(s.regs[ESP] as int + 4), s.mem);
      Ok(s.(regs := s.regs[EAX := h.eax], mem := HostStores(s.mem, h.stores)))
  }

  function HostStores(m: Memory, stores: map<nat, u8>): (r: Memory)
    ensures |r| == |m|
  {
    seq(|m|, i requires 0 <= i < |m| => if i in stores then stores[i] else m[i])
  }

  // ----- Data movement -----

  function DoMov(s: State, dst: Decoded, src: Decoded): (r: Result<State>)
    ensures r.Ok? && PlainDest(dst) ==> SameControl(s, r.value)
    ensures r.Ok? ==> r.value.eflags == s.eflags
  {
    var v :- ReadSource(s, src);
    WriteDest(s, dst, Wrap32(v))
  }

  function DoPush(s: State, src: Decoded): (r: Result<State>)
    ensures r.Ok? ==> SameControl(s, r.value)
  {
    var v :- ReadSource(s, src);
    Ok(Push(s, Wrap32(v)))
  }

  function DoPop(s: State, dst: Decoded): (r: Result<State>)
    ensures r.Ok? && PlainDest(dst) ==> SameControl(s, r.value)
  {
    WriteDest(Drop(s), dst, Top(s))
  }

  function DoXchg(s: State, x: Decoded, y: Decoded): (r: Result<State>)
    ensures r.Ok? && PlainDest(x) && PlainDest(y) ==> SameControl(s, r.value)
  {
    var a :- ReadSource(s, x);
    var b :- ReadSource(s, y);
    var t :- WriteDest(s, x, Wrap32(b));
    WriteDest(t, y, Wrap32(a))
  }

  function DoIn(s: State, dst: Decoded, src: Decoded, env: Env): (r: Result<State>)
    ensures r.Ok? && PlainDest(dst) ==> SameControl(s, r.value)
  {
    var p :- ReadSource(s, src);
    WriteDest(s, dst, env.port(Wrap16(p)))
  }

  function DoCbwCwde(s: State, dst: Decoded, src: Decoded): (r: Result<State>)
    ensures r.Ok? && PlainDest(dst) ==> SameControl(s, r.value)
  {
    var v :- ReadSource(s, src);
    WriteDest(s, dst, if src.size == Sz8 then Signed8(v) else Signed16(v))
  }

  function DoCwdCdq(s: State, dst: Decoded, src: Decoded): (r: Result<State>)
    ensures r.Ok? && PlainDest(dst) ==> SameControl(s, r.value)
  {
    var v :- ReadSource(s, src);
    WriteDest(s, dst, if src.size == Sz16 then Signed16(v) else Signed32(v))
  }

  /** Outside protected mode a selector load sets the base to selector * 16. */
  function LoadSegReg(s: State, dst: Decoded, selector: u16): (r: Result<State>)
    ensures r.Ok? && dst.kind.DSegReg? ==> SameButSegs(s, r.value)
  {
    if s.cr[0] % 2 == 1 then Halted(Spin)
    else
      var t :- WriteDest(s, dst, selector);
      if dst.id < 6 then Ok(t.(segs := t.segs[dst.id := t.segs[dst.id].(base := selector * 16)]))
      else Halted(HostUndefined)
  }

  function DoMovToSr(s: State, dst: Decoded, src: Decoded): Result<State>
  {
    var v :- ReadSource(s, src);
    LoadSegReg(s, dst, Wrap16(v))
  }

  function DoPopSr(s: State, dst: Decoded): Result<State> { LoadSegReg(Drop(s), dst, Wrap16(Top(s))) }

  // ----- Frames and whole-register pushes -----

  function DoEnter(s: State, src1: Decoded): (r: Result<State>)
    ensures r.Ok? ==> SameControl(s, r.value)
  {
    var t := Push(s, s.regs[EBP]);
    var frame := t.regs[ESP];
    var u := SetReg32(Push(t, frame), EBP, frame);
    var n :- ReadSource(u, src1);
    Ok(SetReg32(u, ESP, u.regs[ESP] - n))
  }

  function DoLeave(s: State): (t: State)
    ensures SameControl(s, t) && t.eip == s.eip
  {
    var u :=
      if s.segs[SS].use32 then SetReg32(s, ESP, s.regs[EBP]) else SetReg16(s, ESP, s.regs[EBP]);
    SetReg32(Drop(u), EBP, Top(u))
  }

  function DoPushf(s: State): (t: State)
    ensures SameControl(s, t)
  {
    Push(s, ToWord(s.eflags))
  }

  function DoPopf(s: State): (t: State)
    ensures SameControl(s, t)
  {
    var w := Top(s);
    Drop(s).(eflags := ToBits(if OpSize32(s) then w else PutLow16(ToWord(s.eflags), w)))
  }

  function PushAll(s: State, vs: seq<int>): (t: State)
    ensures SameControl(s, t) && t.eip == s.eip && t.eflags == s.eflags
    decreases vs
  {
    if |vs| == 0 then s else PushAll(Push(s, vs[0]), vs[1..])
  }

  function DoPusha(s: State): State
  {
    var r := s.regs;
    PushAll(s, [r[EAX], r[ECX], r[EDX], r[EBX], r[ESP], r[EBP], r[ESI], r[EDI]])
  }

  /** Pop a register for each number in `ids`, at the operand size. */
  function PopInto(s: State, ids: seq<RegIndex>): (t: State)
    ensures SameControl(s, t) && t.eip == s.eip
    decreases ids
  {
    if |ids| == 0 then s
    else if OpSize32(s) then PopInto(SetReg32(Drop(s), ids[0], Top(s)), ids[1..])
    else PopInto(SetReg16(Drop(s), ids[0], Top(s)), ids[1..])
  }

  /** POPA skips the stored ESP; at 16 bits the skip adds to SP without carrying into the upper half. */
  function SkipStored(s: State): State
  {
    if OpSize32(s) then SetReg32(s, ESP, s.regs[ESP] as int + 4) else SetReg16(s, ESP, s.regs[ESP] as int + 2)
  }

  function DoPopa(s: State): State { PopInto(SkipStored(PopInto(s, [EDI, ESI, EBP])), [EBX, EDX, ECX, EAX]) }

  function DoXlat(s: State): (t: State)
    ensures SameControl(s, t)
  {
    SetReg8(s, EAX, Read8(s.mem, Linear(s, s.sgmtOverride, s.regs[EBX] + Reg8(s, EAX))))
  }

  function DoSahf(s: State): (t: State)
    ensures SameControl(s, t)
  {
    var ah := Reg8(s, EAX + 4);
    s.(eflags := s.eflags[CARRY := TestBit(ah, 1)][PARITY := TestBit(ah, 4)][AUX := TestBit(ah, 16)]
                         [ZERO := TestBit(ah, 64)][SIGN := TestBit(ah, 128)])
  }

  function DoLahf(s: State): (t: State)
    ensures SameControl(s, t)
  {
    SetReg8(s, EAX + 4, ToWord(s.eflags))
  }

  // ----- String operations -----

  /** STRING_SIZE: 1 for a byte form, else by operand size. */
  function StringSize(s: State, flags: nat): nat
  {
    if flags / STR_SZ_8 % 2 == 1 then 1 else if OpSize32(s) then 4 else 2
  }

  function ReadN(m: Memory, a: u32, sz: nat): u32
  {
    match sz
    case 1 => Read8(m, a)
    case 2 => Read16(m, a)
    case _ => Read32(m, a)
  }

  function WriteN(m: Memory, a: u32, v: int, sz: nat): (r: Memory)
    ensures |r| == |m|
  {
    match sz
    case 1 => Write8(m, a, v)
    case 2 => Write16(m, a, v)
    case _ => Write32(m, a, v)
  }

  /** ESI or EDI after one element: down when the direction flag is set. */
  function Advanced(s: State, id: RegIndex, sz: nat): u32
  {
    Wrap32(if s.eflags[DIRECTION] then s.regs[id] - sz else s.regs[id] + sz)
  }

  function StringSource(s: State): u32 { Linear(s, s.sgmtOverride, s.regs[ESI]) }
  function StringDest(s: State): u32 { Linear(s, ES, s.regs[EDI]) }

  function DoMovs(s: State, sz: nat): State
  {
    s.(mem := WriteN(s.mem, StringDest(s), ReadN(s.mem, StringSource(s), sz), sz),
       regs := s.regs[ESI := Advanced(s, ESI, sz)][EDI := Advanced(s, EDI, sz)])
  }

  function DoStos(s: State, sz: nat): State
  {
    s.(mem := WriteN(s.mem, StringDest(s), s.regs[EAX], sz), regs := s.regs[EDI := Advanced(s, EDI, sz)])
  }

  function DoLods(s: State, sz: nat): State
  {
    var v := ReadN(s.mem, StringSource(s), sz);
    var t := if sz == 1 then SetReg8(s, EAX, v) else if sz == 2 then SetReg16(s, EAX, v) else SetReg32(s, EAX, v);
    t.(regs := t.regs[ESI := Advanced(t, ESI, sz)])
  }

  /** CMPS sets ZF alone, from the low byte of the difference. */
  function DoCmps(s: State, sz: nat): State
  {
    var comp := ReadN(s.mem, StringSource(s), sz) - ReadN(s.mem, StringDest(s), sz);
    s.(eflags := s.eflags[ZERO := ZeroBits(comp, Sz8)],
       regs := s.regs[ESI := Advanced(s, ESI, sz)][EDI := Advanced(s, EDI, sz)])
  }

  /** SCAS switches on the entry's flags where the element size was meant. */
  function DoScas(s: State, flags: nat, sz: nat): State
  {
    var v := ReadN(s.mem, StringDest(s), sz);
    var e := match flags
      case 1 => s.eflags[ZERO := ZeroBits(Reg8(s, EAX) - v, Sz8)]
      case 2 => s.eflags[ZERO := ZeroBits(Reg16(s, EAX) - v, Sz16)]
      case 4 => s.eflags[ZERO := ZeroBits(s.regs[EAX] - v, Sz32)]
      case _ => s.eflags;
    s.(eflags := e, regs := s.regs[EDI := Advanced(s, EDI, sz)])
  }

  function DoString(s: State, subType: nat, flags: nat): (r: Result<State>)
    ensures r.Ok? ==> SameControl(s, r.value) && r.value.regs[ECX] == s.regs[ECX] && r.value.eip == s.eip
  {
    var sz := StringSize(s, flags);
    match subType
    case 0 => Ok(DoMovs(s, sz))
    case 1 => Ok(DoScas(s, flags, sz))
    case 2 => Ok(DoStos(s, sz))
    case 5 => Ok(DoLods(s, sz))
    case 6 => Ok(DoCmps(s, sz))
    case _ => Halted(Spin)
  }

  /** After an element: REPNE stops on ZF whatever the operation; REP and REPE stop a compare on no ZF. */
  predicate RepStops(s: State, subType: nat, repne: bool)
  {
    if repne then s.eflags[ZERO] else (subType == CMPS || subType == SCAS) && !s.eflags[ZERO]
  }

  function DoRepString(s: State, subType: nat, flags: nat, repne: bool): (r: Result<State>)
    ensures r.Ok? ==> SameControl(s, r.value) && r.value.eip == s.eip
    decreases s.regs[ECX]
  {
    if s.regs[ECX] == 0 then Ok(s)
    else
      var t :- DoString(s, subType, flags);
      var u := SetReg32(t, ECX, t.regs[ECX] as int - 1);
      if RepStops(u, subType, repne) then Ok(u) else DoRepString(u, subType, flags, repne)
  }
}
