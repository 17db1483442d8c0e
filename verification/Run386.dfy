/** The processor as an object, maverick/run386.c: its fields and the bus change in place, and each method is tied to
    the effect that `Machine` and `Step` give for it on values. */
module Run386 {
  import opened Words
  import opened I386
  import opened Machine
  import opened Step
  import opened Instructions
  import opened RunInvariants
  import opened Disassembler
  import opened Decoders
  import opened Thunks
  import StackLaws
  import UpdateScore

  datatype Outcome = Done | Stops(why: Halt)

  /** An operation came to `after`, or failed to return, as its effect on values says. */
  ghost predicate Follows(spec: Result<State>, r: Outcome, after: State)
  {
    match spec
    case Ok(t) => r.Done? && after == t
    case Halted(why) => r == Stops(why)
  }

  /** Decoding came to an operand and to `after`, or failed, as on values. */
  ghost predicate Decodes(spec: Result<(Decoded, State)>, r: Result<Decoded>, after: State)
  {
    match spec
    case Ok(x) => r == Ok(x.0) && after == x.1
    case Halted(why) => r == Halted(why)
  }

  /** A decoded instruction, apart from the state it runs in. */
  datatype Ready = Ready(inst: Op, reg: RegIndex, dst: Decoded, src1: Decoded, src2: Decoded) {
    ghost function On(s: State): Instruction { Instruction(inst, reg, dst, src1, src2, s) }
  }

  /** The state in which the step behind a prefix starts, and what is undone when that step returns. */
  function Applied(inst: Op, s: State): State
  {
    if inst.opType.OpLock? then Skip(s, 1)
    else if inst.opType.OpSizeOverride? then Fetched(s).(opOverride := true)
    else if inst.opType.OpAddrOverride? then Fetched(s).(addrOverride := true)
    else Fetched(s).(overridingSgmt := true, sgmtOverride := OverrideSegment(inst))
  }

  function Undone(inst: Op, r: Result<State>): Result<State>
  {
    if r.Halted? || inst.opType.OpLock? then r
    else
      var t := r.value.(stepsRun := r.value.stepsRun - 1);
      if inst.opType.OpSizeOverride? then Ok(t.(opOverride := false))
      else if inst.opType.OpAddrOverride? then Ok(t.(addrOverride := false))
      else Ok(t.(overridingSgmt := false, sgmtOverride := DS))
  }

  class Processor {
    var regs: Regs
    var eip: u32
    var oldEip: u32
    var eflags: Bits32
    var segs: Segs
    var cr: ControlRegs
    var opOverride: bool
    var addrOverride: bool
    var overridingSgmt: bool
    var sgmtOverride: SegIndex
    var stepsRun: int
    const bus: array<u8>

    ghost predicate Valid() { bus.Length == BUS20 + SLACK || bus.Length == BUS32 + SLACK }

    ghost function Value(): (s: State)
      reads this, bus
      requires Valid()
    {
      State(regs, eip, oldEip, eflags, segs, cr, opOverride, addrOverride, overridingSgmt, sgmtOverride, stepsRun,
        bus[..])
    }

    /** init_386 of maverick: every segment at 7C0h, 16-bit. */
    constructor BootSector(bus: array<u8>)
      requires bus.Length == BUS20 + SLACK
      ensures Valid() && this.bus == bus && RealMode(Value()) && Real16(Value()) && Value().stepsRun == 0
    {
      this.bus := bus;
      regs, eip, oldEip, eflags, stepsRun := seq(8, i => 0), 0, 0, seq(32, i => false), 0;
      segs, cr := seq(6, i => Seg(0x7C0, 0x7C00, false)), seq(9, i => 0);
      opOverride, addrOverride, overridingSgmt, sgmtOverride := false, false, false, DS;
    }

    /** init_386 of locutus: every base 0, code and stack 32-bit. */
    constructor Flat(bus: array<u8>)
      requires bus.Length == BUS32 + SLACK
      ensures Valid() && this.bus == bus && RealMode(Value()) && Flat32(Value()) && Value().stepsRun == 0
    {
      this.bus := bus;
      regs, eip, oldEip, eflags, stepsRun := seq(8, i => 0), 0, 0, seq(32, i => false), 0;
      segs, cr := seq(6, i => Seg(0, 0, i == CS || i == SS)), seq(9, i => 0);
      opOverride, addrOverride, overridingSgmt, sgmtOverride := false, false, false, DS;
    }

    // ----- The bus -----

    function Index(a: u32): (t: nat)
      requires Valid()
      ensures t + SLACK < bus.Length
    {
      if bus.Length == BUS20 + SLACK then a % BUS20 else a
    }

    method BusRead8(a: u32) returns (v: u8)
      requires Valid()
      ensures v == Read8(Value().mem, a)
    {
      v := bus[Index(a)];
    }

    method BusRead16(a: u32) returns (v: u16)
      requires Valid()
      ensures v == Read16(Value().mem, a)
    {
      v := Bytes16(bus[Index(a)], bus[Index(a) + 1]);
    }

    method BusRead32(a: u32) returns (v: u32)
      requires Valid()
      ensures v == Read32(Value().mem, a)
    {
      v := Bytes32(bus[Index(a)], bus[Index(a) + 1], bus[Index(a) + 2], bus[Index(a) + 3]);
    }

    method Store(t: nat, v: int, n: nat)
      requires Valid() && n <= 4 && t + n <= bus.Length
      modifies bus
      ensures Value() == old(Value()).(mem := Machine.Store(old(bus[..]), t, v, n))
    {
      for k := 0 to n
        invariant bus[..] == Machine.Store(old(bus[..]), t, v, k)
      {
        bus[t + k] := ByteOf(v, k);
      }
    }

    method BusWrite8(a: u32, v: int)
      requires Valid()
      modifies bus
      ensures Value() == old(Value()).(mem := Write8(old(Value()).mem, a, v))
    {
      Store(Index(a), v, 1);
    }

    method BusWrite16(a: u32, v: int)
      requires Valid()
      modifies bus
      ensures Value() == old(Value()).(mem := Write16(old(Value()).mem, a, v))
    {
      Store(Index(a), v, 2);
    }

    method BusWrite32(a: u32, v: int)
      requires Valid()
      modifies bus
      ensures Value() == old(Value()).(mem := Write32(old(Value()).mem, a, v))
    {
      Store(Index(a), v, 4);
    }

    // ----- The stack -----

    method Push(v: int)
      requires Valid()
      modifies this, bus
      ensures Value() == Machine.Push(old(Value()), v)
    {
      hide Write16, Write32;
      if segs[SS].use32 {
        regs := regs[ESP := Wrap32(regs[ESP] as int - 4)];
        BusWrite32(Wrap32(segs[SS].base + regs[ESP]), v);
      } else {
        regs := regs[ESP := Wrap32(regs[ESP] as int - 2)];
        BusWrite16(Wrap32(segs[SS].base + regs[ESP]), v);
      }
    }

    method Pop() returns (v: u32)
      requires Valid()
      modifies this
      ensures v == Top(old(Value())) && Value() == Drop(old(Value()))
    {
      if segs[SS].use32 {
        v := BusRead32(Wrap32(segs[SS].base + regs[ESP]));
        regs := regs[ESP := Wrap32(regs[ESP] as int + 4)];
      } else {
        v := BusRead16(Wrap32(segs[SS].base + regs[ESP]));
        regs := regs[ESP := Wrap32(regs[ESP] as int + 2)];
      }
    }

    // ----- Operands -----

    method WriteReg8(id: RegIndex, v: int)
      requires Valid()
      modifies this
      ensures Value() == SetReg8(old(Value()), id, v)
    {
      if id < 4 {
        regs := regs[id := PutLow8(regs[id], v)];
      } else {
        regs := regs[id - 4 := PutHigh8(regs[id - 4], v)];
      }
    }

    method WriteReg16(id: RegIndex, v: int)
      requires Valid()
      modifies this
      ensures Value() == SetReg16(old(Value()), id, v)
    {
      regs := regs[id := PutLow16(regs[id], v)];
    }

    method WriteReg32(id: RegIndex, v: int)
      requires Valid()
      modifies this
      ensures Value() == SetReg32(old(Value()), id, v)
    {
      regs := regs[id := Wrap32(v)];
    }

    method ReadSource(src: Decoded) returns (r: Result<u64>)
      requires Valid()
      ensures r == Machine.ReadSource(Value(), src)
    {
      match src.kind
      case DNone => return Ok(0);
      case DImm => return Ok(src.id);
      case DEdxEax =>
        if src.size == Sz32 { return Ok(Low16(regs[EDX]) * TWO16 + Low16(regs[EAX])); }
        return Ok(regs[EDX] * TWO32 + regs[EAX]);
      case DMem =>
        var a := Wrap32(segs[src.sr].base + src.id);
        if src.size == Sz8 {
          var v := BusRead8(a);
          return Ok(v);
        } else if src.size == Sz16 {
          var v := BusRead16(a);
          return Ok(v);
        } else if src.size == Sz32 {
          var v := BusRead32(a);
          return Ok(v);
        }
        return Halted(Spin);
      case DReg =>
        if src.id >= 8 { return Halted(HostUndefined); }
        match src.size {
          case Sz8 => return Ok(if src.id < 4 then Low8(regs[src.id]) else High8(regs[src.id - 4]));
          case Sz16 => return Ok(Low16(regs[src.id]));
          case Sz32 => return Ok(regs[src.id]);
          case _ => return Halted(Spin);
        }
      case DSegReg =>
        if src.id < 6 { return Ok(segs[src.id].selector); }
        return Halted(HostUndefined);
      case DCtrlReg =>
        if src.id < 9 { return Ok(cr[src.id]); }
        return Halted(HostUndefined);
    }

    method WriteDest(dst: Decoded, v: int) returns (r: Outcome)
      requires Valid()
      modifies this, bus
      ensures Follows(Machine.WriteDest(old(Value()), dst, v), r, Value())
    {
      hide Write8, Write16, Write32, SetReg8, SetReg16, Wrap16;
      r := Done;
      match dst.kind
      case DNone =>
      case DImm => r := Stops(Spin);
      case DEdxEax =>
        if dst.size == Sz32 {
          WriteReg16(EDX, v / TWO16);
          WriteReg16(EAX, v);
        } else if dst.size == Sz64 {
          WriteReg32(EDX, v / TWO32);
          WriteReg32(EAX, v);
        }
      case DMem =>
        var a := Wrap32(segs[dst.sr].base + dst.id);
        if dst.size == Sz8 { BusWrite8(a, v); }
        else if dst.size == Sz16 { BusWrite16(a, v); }
        else if dst.size == Sz32 { BusWrite32(a, v); }
        else { r := Stops(Spin); }
      case DReg =>
        if dst.id >= 8 { return Stops(HostUndefined); }
        if dst.size == Sz8 { WriteReg8(dst.id, v); }
        else if dst.size == Sz16 { WriteReg16(dst.id, v); }
        else if dst.size == Sz32 { WriteReg32(dst.id, v); }
        else { r := Stops(Spin); }
      case DSegReg =>
        if dst.id >= 6 { return Stops(HostUndefined); }
        segs := segs[dst.id := segs[dst.id].(selector := Wrap16(v))];
      case DCtrlReg =>
        if dst.id >= 9 { return Stops(HostUndefined); }
        cr := cr[dst.id := Wrap32(v)];
    }

    // ----- Flags -----

    method PutFlag(flag: nat, on: bool)
      requires Valid() && flag < 32
      modifies this
      ensures Value() == old(Value()).(eflags := old(eflags)[flag := on])
    {
      eflags := eflags[flag := on];
    }

    /** SetSF, SetZF and SetPF. */
    method SetResultFlags(res: int, size: Size)
      requires Valid()
      modifies this
      ensures Value() == old(Value()).(eflags := SetSZP(old(eflags), res, size))
    {
      PutFlag(SIGN, SignBit(res, size));
      PutFlag(ZERO, ZeroBits(res, size));
      PutFlag(PARITY, !OddParity(res));
    }

    method SetLogicFlags(res: int, size: Size)
      requires Valid()
      modifies this
      ensures Value() == old(Value()).(eflags := LogicFlags(old(eflags), res, size))
    {
      PutFlag(CARRY, false);
      PutFlag(OVERFLOW, false);
      SetResultFlags(res, size);
    }

    method SetAddFlags(a: u32, b: u32, res: u32, size: Size)
      requires Valid()
      modifies this
      ensures Value() == old(Value()).(eflags := AddFlags(old(eflags), a, b, res, size))
    {
      SetResultFlags(res, size);
      PutFlag(AUX, TestBit(a, 16) != (TestBit(b, 16) != TestBit(res, 16)));
      PutFlag(OVERFLOW, OverflowAdd(a, b, res, size));
      PutFlag(CARRY, CarryBit(res, size));
    }

    method SetSubFlags(a: u32, b: u32, res: u32, size: Size)
      requires Valid()
      modifies this
      ensures Value() == old(Value()).(eflags := SubFlags(old(eflags), a, b, res, size))
    {
      SetResultFlags(res, size);
      PutFlag(AUX, TestBit(a, 16) != (TestBit(b, 16) != TestBit(res, 16)));
      PutFlag(OVERFLOW, OverflowSub(a, b, res, size));
      PutFlag(CARRY, CarryBit(res, size));
    }

    // ----- Arithmetic -----

    method DoAluOp(op: nat, dst: Decoded, src1: Decoded, src2: Decoded, reg: nat) returns (r: Outcome)
      requires Valid()
      modifies this, bus
      ensures Follows(DoAlu(old(Value()), op, dst, src1, src2, reg), r, Value())
    {
      hide Machine.ReadSource, Machine.WriteDest, AluResult;
      var actual := if op == ALU_MULTI then reg else op;
      var x := ReadSource(src1);
      if x.Halted? { return Stops(x.why); }
      var y := ReadSource(src2);
      if y.Halted? { return Stops(y.why); }
      var res := AluOp(actual, Wrap32(x.value), Wrap32(y.value), src1.size);
      if res.Halted? { return Stops(res.why); }
      if actual == ALU_CMP { return Done; }
      r := WriteDest(dst, res.value);
    }

    /** The result of one ALU operation, with the flags set on the way. */
    method AluOp(op: nat, a: u32, b: u32, size: Size) returns (r: Result<u32>)
      requires Valid()
      modifies this
      ensures var x := AluResult(op, old(eflags), a, b, size);
              if x.Halted? then r == Halted(x.why)
              else r == Ok(x.value.0) && Value() == old(Value()).(eflags := x.value.1)
    {
      hide AddFlags, SubFlags, LogicFlags, Xor32, And32, Or32;
      if !FlagSize(size) { return Halted(Spin); }
      var res := 0;
      match op {
        case 0 =>
          res := Wrap32(a + b);
          SetAddFlags(a, b, res, size);
        case 1 =>
          res := Or32(a, b);
          SetLogicFlags(res, size);
        case 2 =>
          res := Wrap32(Machine.Bit(eflags[CARRY]) + a + b);
          SetAddFlags(a, b, res, size);
        case 3 =>
          res := Wrap32(a - b - Machine.Bit(eflags[CARRY]));
          SetSubFlags(a, b, res, size);
        case 4 =>
          res := And32(a, b);
          SetLogicFlags(res, size);
        case 5 | 7 =>
          res := Wrap32(a - b);
          SetSubFlags(a, b, res, size);
        case 6 =>
          res := Xor32(a, b);
          SetLogicFlags(res, size);
        case _ => return Halted(Spin);
      }
      r := Ok(res);
    }

    method DoAluSpecialOp(op: nat, dst: Decoded, src1: Decoded, src2: Decoded, flags: nat) returns (r: Outcome)
      requires Valid()
      modifies this, bus
      ensures Follows(DoAluSpecial(old(Value()), op, dst, src1, src2, flags), r, Value())
    {
      hide Machine.ReadSource, Machine.WriteDest, SpecialResult;
      var x := ReadSource(src1);
      if x.Halted? { return Stops(x.why); }
      var y := ReadSource(src2);
      if y.Halted? { return Stops(y.why); }
      var special := SpecialOp(op, x.value, y.value, OperandBits(dst.size), src1.size);
      if special.Halted? { return Stops(special.why); }
      var (res, rem) := special.value;
      r := WriteDest(dst, res);
      if r.Stops? || !WritesDx(flags) { return; }
      match dst.size {
        case Sz8 => WriteReg8(EAX + 4, rem);
        case Sz16 => WriteReg16(EDX, rem);
        case Sz32 => WriteReg32(EDX, rem);
        case _ => return Stops(Spin);
      }
    }

    /** The result and the high half or remainder; TEST and NEG set flags. */
    method SpecialOp(op: nat, a: u64, b: u64, bits: nat, flagSize: Size) returns (r: Result<(int, int)>)
      requires Valid()
      modifies this
      ensures var x := SpecialResult(op, old(eflags), a, b, bits, flagSize);
              if x.Halted? then r == Halted(x.why)
              else r == Ok((x.value.res, x.value.rem)) && Value() == old(Value()).(eflags := x.value.eflags)
    {
      hide And32, LogicFlags, SetSZP, TruncDiv, TruncMod, Wrap64, Wrap32, SignedAt, SignedDouble, HighPart;
      match op
      case 0 =>
        if !FlagSize(flagSize) { return Halted(Spin); }
        var res := And32(Wrap32(a), Wrap32(b));
        SetLogicFlags(res, flagSize);
        return Ok((res, 0));
      case 2 => return Ok((TWO64 - 1 - a, 0));
      case 3 =>
        if !FlagSize(flagSize) { return Halted(Spin); }
        PutFlag(CARRY, a == 0);
        SetResultFlags(-(a as int), flagSize);
        return Ok((-(a as int), 0));
      case 4 =>
        var product := Wrap64(a * b);
        return Ok((product, HighPart(product, bits)));
      case 5 =>
        var product := SignedAt(a, bits) * SignedAt(b, bits);
        return Ok((product, HighPart(product, bits)));
      case 6 =>
        if b == 0 { return Halted(HostUndefined); }
        return Ok((a / b, a % b));
      case 7 =>
        var (n, d) := (SignedDouble(a, bits), SignedAt(b, bits));
        if d == 0 || (d == -1 && bits == 16 && n == -0x8000_0000)
          || (d == -1 && bits == 32 && n == -0x8000_0000_0000_0000) {
          return Halted(HostUndefined);
        }
        return Ok((TruncDiv(n, d), TruncMod(n, d)));
      case _ => return Halted(Spin);
    }

    method DoIncDecOp(version: nat, dst: Decoded, src1: Decoded) returns (r: Outcome)
      requires Valid()
      modifies this, bus
      ensures Follows(DoIncDec(old(Value()), version, dst, src1), r, Value())
    {
      hide Machine.ReadSource, Machine.WriteDest, SetSZP, OverflowAdd, OverflowSub;
      var x := ReadSource(src1);
      if x.Halted? { return Stops(x.why); }
      var a := Wrap32(x.value);
      if !FlagSize(src1.size) { return Stops(Spin); }
      var res := if version == ID_INC then Wrap32(a as int + 1) else Wrap32(a as int - 1);
      SetResultFlags(res, src1.size);
      PutFlag(AUX, TestBit(a, 16) != (TestBit(1, 16) != TestBit(res, 16)));
      PutFlag(OVERFLOW, if version == ID_INC then OverflowAdd(a, 1, res, src1.size)
        else OverflowSub(a, 1, res, src1.size));
      r := WriteDest(dst, res);
    }

    method DoShiftOp(op: nat, dst: Decoded, src1: Decoded, src2: Decoded) returns (r: Outcome)
      requires Valid()
      modifies this, bus
      ensures Follows(DoShift(old(Value()), op, dst, src1, src2), r, Value())
    {
      hide Machine.ReadSource, Machine.WriteDest, ShiftLeft, ShiftRight, TestBit;
      var x := ReadSource(src2);
      if x.Halted? { return Stops(x.why); }
      var y := ReadSource(src1);
      if y.Halted? { return Stops(y.why); }
      var (n, v) := (Wrap8(x.value), Wrap32(y.value));
      if op != SHL && op != SHR { return Stops(Spin); }
      if n >= 32 { return Stops(HostUndefined); }
      var res := 0;
      if op == SHL {
        res := Wrap32(ShiftLeft(v, n));
        if dst.size == Sz8 { PutFlag(CARRY, TestBit(res, TWO8)); }
      } else {
        res := ShiftRight(v, n);
      }
      r := WriteDest(dst, res);
    }

    // ----- Control transfer -----

    method DoCallNearOp(src: Decoded) returns (r: Outcome)
      requires Valid()
      modifies this, bus
      ensures Follows(DoCallNear(old(Value()), src), r, Value())
    {
      hide Machine.ReadSource, Machine.Push;
      Push(eip);
      var x := ReadSource(src);
      if x.Halted? { return Stops(x.why); }
      eip := Wrap32(x.value);
      r := Done;
    }

    method DoRetNearOp(src: Decoded) returns (r: Outcome)
      requires Valid()
      modifies this
      ensures Follows(DoRetNear(old(Value()), src), r, Value())
    {
      hide Machine.ReadSource, Top;
      var x := ReadSource(src);
      if x.Halted? { return Stops(x.why); }
      eip := Pop();
      regs := regs[ESP := Wrap32(regs[ESP] + x.value)];
      r := Done;
    }

    method DoNearJump(src: Decoded, condition: nat) returns (r: Outcome)
      requires Valid()
      modifies this
      ensures Follows(DoJump(old(Value()), src, condition), r, Value())
    {
      hide Machine.ReadSource;
      var taken := Condition(condition);
      if taken {
        var x := ReadSource(src);
        if x.Halted? { return Stops(x.why); }
        eip := Wrap32(x.value);
      }
      r := Done;
    }

    /** jump_condition. */
    method Condition(condition: nat) returns (taken: bool)
      requires Valid()
      ensures taken <==> JumpCondition(Value(), condition)
    {
      var (o, c, z, n, p) := (eflags[OVERFLOW], eflags[CARRY], eflags[ZERO], eflags[SIGN], eflags[PARITY]);
      if condition >= 17 {
        return if segs[CS].use32 != opOverride then regs[ECX] == 0 else Low16(regs[ECX]) == 0;
      }
      if condition == 16 { return true; }
      var held := match condition / 2
        case 0 => o
        case 1 => c
        case 2 => z
        case 3 => c || z
        case 4 => n
        case 5 => p
        case 6 => n != o
        case _ => z || n != o;
      return held != (condition % 2 == 1);
    }

    method DoLoopOp(kind: nat, src: Decoded) returns (r: Outcome)
      requires Valid()
      modifies this
      ensures Follows(DoLoop(old(Value()), kind, src), r, Value())
    {
      hide Machine.ReadSource;
      var x := ReadSource(src);
      if x.Halted? { return Stops(x.why); }
      regs := regs[ECX := Wrap32(regs[ECX] as int - 1)];
      var zf := eflags[ZERO];
      if regs[ECX] != 0 && (kind == LOOP_NORMAL || (kind == LOOPNE && !zf) || (kind == LOOPE && zf)) {
        eip := Wrap32(x.value);
      }
      r := Done;
    }

    method DoIntOp(src: Decoded, env: Env) returns (r: Outcome)
      requires Valid()
      modifies this, bus
      ensures Follows(DoInt(old(Value()), src, env), r, Value())
    {
      hide Machine.ReadSource;
      var x := ReadSource(src);
      if x.Halted? { return Stops(x.why); }
      var vector := Wrap32(x.value);
      if vector != 0x80 { return Stops(HostService(vector)); }
      var h := env.host(regs[EAX], Wrap32(regs[ESP] as int + 4), bus[..]);
      regs := regs[EAX := h.eax];
      forall i | 0 <= i < bus.Length && i in h.stores { bus[i] := h.stores[i]; }
      assert bus[..] == HostStores(old(bus[..]), h.stores);
      r := Done;
    }

    // ----- Data movement -----

    method DoMovOp(dst: Decoded, src: Decoded) returns (r: Outcome)
      requires Valid()
      modifies this, bus
      ensures Follows(DoMov(old(Value()), dst, src), r, Value())
    {
      hide Machine.ReadSource, Machine.WriteDest;
      var x := ReadSource(src);
      if x.Halted? { return Stops(x.why); }
      r := WriteDest(dst, Wrap32(x.value));
    }

    method DoPushOp(src: Decoded) returns (r: Outcome)
      requires Valid()
      modifies this, bus
      ensures Follows(DoPush(old(Value()), src), r, Value())
    {
      hide Machine.ReadSource, Machine.Push;
      var x := ReadSource(src);
      if x.Halted? { return Stops(x.why); }
      Push(Wrap32(x.value));
      r := Done;
    }

    method DoPopOp(dst: Decoded) returns (r: Outcome)
      requires Valid()
      modifies this, bus
      ensures Follows(DoPop(old(Value()), dst), r, Value())
    {
      hide Machine.WriteDest, Top, Drop;
      var v := Pop();
      r := WriteDest(dst, v);
    }

    method DoXchgOp(x: Decoded, y: Decoded) returns (r: Outcome)
      requires Valid()
      modifies this, bus
      ensures Follows(DoXchg(old(Value()), x, y), r, Value())
    {
      hide Machine.ReadSource, Machine.WriteDest;
      var a := ReadSource(x);
      if a.Halted? { return Stops(a.why); }
      var b := ReadSource(y);
      if b.Halted? { return Stops(b.why); }
      r := WriteDest(x, Wrap32(b.value));
      if r.Stops? { return; }
      r := WriteDest(y, Wrap32(a.value));
    }

    method DoInOp(dst: Decoded, src: Decoded, env: Env) returns (r: Outcome)
      requires Valid()
      modifies this, bus
      ensures Follows(DoIn(old(Value()), dst, src, env), r, Value())
    {
      hide Machine.ReadSource, Machine.WriteDest;
      var x := ReadSource(src);
      if x.Halted? { return Stops(x.why); }
      r := WriteDest(dst, env.port(Wrap16(x.value)));
    }

    /** CBW and CWDE, or with `wide` CWD and CDQ: the source's sign fills the destination. */
    method DoExtend(wide: bool, dst: Decoded, src: Decoded) returns (r: Outcome)
      requires Valid()
      modifies this, bus
      ensures Follows(if wide then DoCwdCdq(old(Value()), dst, src) else DoCbwCwde(old(Value()), dst, src), r, Value())
    {
      hide Machine.ReadSource, Machine.WriteDest, Signed8, Signed16, Signed32;
      var x := ReadSource(src);
      if x.Halted? { return Stops(x.why); }
      if wide {
        r := WriteDest(dst, if src.size == Sz16 then Signed16(x.value) else Signed32(x.value));
      } else {
        r := WriteDest(dst, if src.size == Sz8 then Signed8(x.value) else Signed16(x.value));
      }
    }

    method LoadSegmentRegister(dst: Decoded, selector: u16) returns (r: Outcome)
      requires Valid()
      modifies this, bus
      ensures Follows(LoadSegReg(old(Value()), dst, selector), r, Value())
    {
      hide Machine.WriteDest;
      if cr[0] % 2 == 1 { return Stops(Spin); }
      r := WriteDest(dst, selector);
      if r.Stops? { return; }
      if dst.id >= 6 { return Stops(HostUndefined); }
      segs := segs[dst.id := segs[dst.id].(base := selector * 16)];
    }

    method DoMovToSrOp(dst: Decoded, src: Decoded) returns (r: Outcome)
      requires Valid()
      modifies this, bus
      ensures Follows(DoMovToSr(old(Value()), dst, src), r, Value())
    {
      hide Machine.ReadSource, LoadSegReg;
      var x := ReadSource(src);
      if x.Halted? { return Stops(x.why); }
      r := LoadSegmentRegister(dst, Wrap16(x.value));
    }

    method DoPopSrOp(dst: Decoded) returns (r: Outcome)
      requires Valid()
      modifies this, bus
      ensures Follows(DoPopSr(old(Value()), dst), r, Value())
    {
      hide LoadSegReg, Top, Drop;
      var v := Pop();
      r := LoadSegmentRegister(dst, Wrap16(v));
    }

    method DoXlatOp()
      requires Valid()
      modifies this
      ensures Value() == DoXlat(old(Value()))
    {
      hide Read8, SetReg8;
      var v := BusRead8(Wrap32(segs[sgmtOverride].base + (regs[EBX] + Low8(regs[EAX]))));
      WriteReg8(EAX, v);
    }

    method DoSahfOp()
      requires Valid()
      modifies this
      ensures Value() == DoSahf(old(Value()))
    {
      hide TestBit;
      var ah := High8(regs[EAX]);
      PutFlag(CARRY, TestBit(ah, 1));
      PutFlag(PARITY, TestBit(ah, 4));
      PutFlag(AUX, TestBit(ah, 16));
      PutFlag(ZERO, TestBit(ah, 64));
      PutFlag(SIGN, TestBit(ah, 128));
    }

    method DoPopfOp()
      requires Valid()
      modifies this
      ensures Value() == DoPopf(old(Value()))
    {
      hide Top, ToBits, ToWord;
      var w := Pop();
      eflags := ToBits(if segs[CS].use32 != opOverride then w else PutLow16(ToWord(eflags), w));
    }

    // ----- Frames and whole-register pushes -----

    method DoEnterOp(src1: Decoded) returns (r: Outcome)
      requires Valid()
      modifies this, bus
      ensures Follows(DoEnter(old(Value()), src1), r, Value())
    {
      hide Machine.ReadSource, Machine.Push;
      Push(regs[EBP]);
      var frame := regs[ESP];
      Push(frame);
      regs := regs[EBP := frame];
      var n := ReadSource(src1);
      if n.Halted? { return Stops(n.why); }
      regs := regs[ESP := Wrap32(regs[ESP] - n.value)];
      r := Done;
    }

    method DoLeaveOp()
      requires Valid()
      modifies this
      ensures Value() == DoLeave(old(Value()))
    {
      hide Top, SetReg16;
      if segs[SS].use32 {
        regs := regs[ESP := regs[EBP]];
      } else {
        WriteReg16(ESP, regs[EBP]);
      }
      var v := Pop();
      regs := regs[EBP := v];
    }

    /** Push item `k` of a list of pushes. */
    method PushItem(v: int, ghost all: seq<int>, ghost k: nat)
      requires Valid() && k < |all| && all[k] == v
      modifies this, bus
      ensures PushAll(old(Value()), all[k..]) == PushAll(Value(), all[k + 1..])
      ensures Value() == old(Value()).(regs := regs, mem := bus[..])
      ensures forall i :: 0 <= i < 8 && i != ESP ==> regs[i] == old(regs[i])
    {
      Push(v);
      assert all[k..][1..] == all[k + 1..];
    }

    /** The stored ESP is the one before the first push. */
    method DoPushaOp()
      requires Valid()
      modifies this, bus
      ensures Value() == DoPusha(old(Value()))
    {
      hide PushAll;
      var temp := regs[ESP];
      ghost var all: seq<int> := [regs[EAX], regs[ECX], regs[EDX], regs[EBX], temp, regs[EBP], regs[ESI], regs[EDI]];
      assert all[0..] == all;
      PushItem(regs[EAX], all, 0);
      PushItem(regs[ECX], all, 1);
      PushItem(regs[EDX], all, 2);
      PushItem(regs[EBX], all, 3);
      PushItem(temp, all, 4);
      PushItem(regs[EBP], all, 5);
      PushItem(regs[ESI], all, 6);
      PushItem(regs[EDI], all, 7);
      NothingToPush(Value(), all);
    }

    lemma NothingToPush(s: State, all: seq<int>)
      ensures PushAll(s, all[|all|..]) == s
    {
    }

    /** Pop register `k` of a list, at the operand size. */
    method PopItem(id: RegIndex, ghost ids: seq<RegIndex>, ghost k: nat)
      requires Valid() && k < |ids| && ids[k] == id
      modifies this
      ensures PopInto(old(Value()), ids[k..]) == PopInto(Value(), ids[k + 1..])
    {
      hide Top, Drop;
      var v := Pop();
      if segs[CS].use32 != opOverride { WriteReg32(id, v); } else { WriteReg16(id, v); }
      assert ids[k..][1..] == ids[k + 1..];
    }

    method DoPopaOp()
      requires Valid()
      modifies this
      ensures Value() == DoPopa(old(Value()))
    {
      hide PopInto, SetReg16;
      ghost var s := Value();
      ghost var first: seq<RegIndex> := [EDI, ESI, EBP];
      ghost var second: seq<RegIndex> := [EBX, EDX, ECX, EAX];
      assert first[0..] == first && second[0..] == second;
      PopItem(EDI, first, 0);
      PopItem(ESI, first, 1);
      PopItem(EBP, first, 2);
      NothingToPop(Value(), first);
      if segs[CS].use32 != opOverride { WriteReg32(ESP, regs[ESP] as int + 4); }
        else { WriteReg16(ESP, regs[ESP] as int + 2); }
      PopItem(EBX, second, 0);
      PopItem(EDX, second, 1);
      PopItem(ECX, second, 2);
      PopItem(EAX, second, 3);
      NothingToPop(Value(), second);
    }

    lemma NothingToPop(s: State, ids: seq<RegIndex>)
      ensures PopInto(s, ids[|ids|..]) == s
    {
    }

    // ----- String operations -----

    function StringBytes(flags: nat): nat
      reads this
    {
      if flags / STR_SZ_8 % 2 == 1 then 1 else if segs[CS].use32 != opOverride then 4 else 2
    }

    method StringLoad(a: u32, sz: nat) returns (v: u32)
      requires Valid()
      ensures v == ReadN(Value().mem, a, sz)
    {
      if sz == 1 { v := BusRead8(a); } else if sz == 2 { v := BusRead16(a); } else { v := BusRead32(a); }
    }

    method StringStore(a: u32, v: int, sz: nat)
      requires Valid()
      modifies bus
      ensures Value() == old(Value()).(mem := WriteN(old(Value()).mem, a, v, sz))
    {
      if sz == 1 { BusWrite8(a, v); } else if sz == 2 { BusWrite16(a, v); } else { BusWrite32(a, v); }
    }

    /** ESI or EDI moves past an element. */
    method StringUpdate(id: RegIndex, sz: nat)
      requires Valid()
      modifies this
      ensures Value() == old(Value()).(regs := old(regs)[id := Advanced(old(Value()), id, sz)])
    {
      regs := regs[id := Wrap32(if eflags[DIRECTION] then regs[id] - sz else regs[id] + sz)];
    }

    method DoMovsOp(sz: nat)
      requires Valid()
      modifies this, bus
      ensures Value() == DoMovs(old(Value()), sz)
    {
      hide ReadN, WriteN;
      var v := StringLoad(Wrap32(segs[sgmtOverride].base + regs[ESI]), sz);
      StringStore(Wrap32(segs[ES].base + regs[EDI]), v, sz);
      StringUpdate(ESI, sz);
      StringUpdate(EDI, sz);
    }

    method DoStosOp(sz: nat)
      requires Valid()
      modifies this, bus
      ensures Value() == DoStos(old(Value()), sz)
    {
      hide WriteN;
      StringStore(Wrap32(segs[ES].base + regs[EDI]), regs[EAX], sz);
      StringUpdate(EDI, sz);
    }

    method DoLodsOp(sz: nat)
      requires Valid()
      modifies this
      ensures Value() == DoLods(old(Value()), sz)
    {
      hide ReadN, SetReg8, SetReg16;
      var v := StringLoad(Wrap32(segs[sgmtOverride].base + regs[ESI]), sz);
      if sz == 1 { WriteReg8(EAX, v); } else if sz == 2 { WriteReg16(EAX, v); } else { WriteReg32(EAX, v); }
      StringUpdate(ESI, sz);
    }

    method DoCmpsOp(sz: nat)
      requires Valid()
      modifies this
      ensures Value() == DoCmps(old(Value()), sz)
    {
      hide ReadN, ZeroBits;
      var x := StringLoad(Wrap32(segs[sgmtOverride].base + regs[ESI]), sz);
      var y := StringLoad(Wrap32(segs[ES].base + regs[EDI]), sz);
      PutFlag(ZERO, ZeroBits(x as int - y, Sz8));
      StringUpdate(ESI, sz);
      StringUpdate(EDI, sz);
    }

    method DoScasOp(flags: nat, sz: nat)
      requires Valid()
      modifies this
      ensures Value() == DoScas(old(Value()), flags, sz)
    {
      hide ReadN, ZeroBits;
      var v := StringLoad(Wrap32(segs[ES].base + regs[EDI]), sz);
      if flags == 1 { PutFlag(ZERO, ZeroBits(Low8(regs[EAX]) as int - v, Sz8)); }
      else if flags == 2 { PutFlag(ZERO, ZeroBits(Low16(regs[EAX]) as int - v, Sz16)); }
      else if flags == 4 { PutFlag(ZERO, ZeroBits(regs[EAX] as int - v, Sz32)); }
      StringUpdate(EDI, sz);
    }

    method DoStringOp(subType: nat, flags: nat) returns (r: Outcome)
      requires Valid()
      modifies this, bus
      ensures Follows(DoString(old(Value()), subType, flags), r, Value())
    {
      hide DoMovs, DoStos, DoLods, DoCmps, DoScas;
      var sz := StringBytes(flags);
      r := Done;
      match subType
      case 0 => DoMovsOp(sz);
      case 1 => DoScasOp(flags, sz);
      case 2 => DoStosOp(sz);
      case 5 => DoLodsOp(sz);
      case 6 => DoCmpsOp(sz);
      case _ => r := Stops(Spin);
    }

    /** The repeat loop computes the recursive effect. */
    method DoRepStringOp(subType: nat, flags: nat, repne: bool) returns (r: Outcome)
      requires Valid()
      modifies this, bus
      ensures Follows(DoRepString(old(Value()), subType, flags, repne), r, Value())
    {
      hide DoString;
      while regs[ECX] != 0
        invariant DoRepString(old(Value()), subType, flags, repne) == DoRepString(Value(), subType, flags, repne)
        decreases regs[ECX]
      {
        r := DoStringOp(subType, flags);
        if r.Stops? { return; }
        regs := regs[ECX := Wrap32(regs[ECX] as int - 1)];
        if repne {
          if eflags[ZERO] { return Done; }
        } else if subType == CMPS || subType == SCAS {
          if !eflags[ZERO] { return Done; }
        }
      }
      r := Done;
    }

    // ----- Decoding -----

    method Fetch8() returns (v: u8)
      requires Valid()
      modifies this
      ensures v == Code8(old(Value())) && Value() == Skip(old(Value()), 1)
    {
      v := BusRead8(Wrap32(segs[CS].base + eip));
      eip := Wrap32(eip + 1);
    }

    method Fetch16() returns (v: u16)
      requires Valid()
      modifies this
      ensures v == Code16(old(Value())) && Value() == Skip(old(Value()), 2)
    {
      v := BusRead16(Wrap32(segs[CS].base + eip));
      eip := Wrap32(eip + 2);
    }

    method Fetch32() returns (v: u32)
      requires Valid()
      modifies this
      ensures v == Code32(old(Value())) && Value() == Skip(old(Value()), 4)
    {
      v := BusRead32(Wrap32(segs[CS].base + eip));
      eip := Wrap32(eip + 4);
    }

    /** decode_rm_16. */
    method DecodeModrm16(modrm: u8) returns (d: Decoded)
      requires Valid()
      modifies this
      ensures (d, Value()) == DecodeRm16(old(Value()), modrm)
    {
      hide Code8, Code16, Wrap16, Signed8, Low16;
      var (mod, rm) := (ModField(modrm), RmOf(modrm));
      if mod == 3 { return Decoded(DReg, rm, Sz8, 0); }
      var (bx, bp, si, di) := (Low16(regs[EBX]), Low16(regs[EBP]), Low16(regs[ESI]), Low16(regs[EDI]));
      var offset: int := 0;
      var sr: SegIndex := 0;
      match rm {
        case 0 => offset := bx + si;
        case 1 => offset := bx + di;
        case 2 => offset, sr := bp + si, SS;
        case 3 => offset, sr := bp + di, SS;
        case 4 => offset := si;
        case 5 => offset := di;
        case 6 =>
          if mod == 0 {
            offset := Fetch16();
          } else {
            offset, sr := bp, SS;
          }
        case _ => offset := bx;
      }
      if mod == 1 {
        var disp := Fetch8();
        offset := offset + Signed8(disp);
      } else if mod == 2 {
        var disp := Fetch16();
        offset := offset + disp;
      }
      d := Decoded(DMem, Wrap32(Wrap16(offset)), Sz8, sr);
    }

    /** decode_sib. */
    method DecodeSibByte(mod: nat) returns (r: Result<(int, SegIndex)>)
      requires Valid()
      modifies this
      ensures match DecodeSib(old(Value()), mod)
              case Ok(x) => r == Ok((x.0, x.1)) && Value() == x.2
              case Halted(why) => r == Halted(why)
    {
      hide Code8, Code32;
      var sib := Fetch8();
      var (scale, index, base) := (ModField(sib), RegOf(sib), RmOf(sib));
      var offset: int := 0;
      var sr: SegIndex := 0;
      if base == 5 && mod == 0 {
        offset := Fetch32();
      } else {
        offset := regs[base];
        if base == 5 || base == 4 { sr := SS; }
      }
      if index != 4 {
        if scale >= 2 { return Halted(HostUndefined); }
        offset := offset + regs[index] as int * (if scale == 1 then 2 else 1);
      }
      r := Ok((offset, sr));
    }

    /** decode_rm_32. */
    method DecodeModrm32(modrm: u8) returns (r: Result<Decoded>)
      requires Valid()
      modifies this
      ensures Decodes(DecodeRm32(old(Value()), modrm), r, Value())
    {
      hide Code8, Code32, Signed8, DecodeSib;
      var (mod, rm) := (ModField(modrm), RmOf(modrm));
      if mod == 3 { return Ok(Decoded(DReg, rm, Sz8, 0)); }
      var offset: int := 0;
      var sr: SegIndex := 0;
      if rm == 4 {
        var sib := DecodeSibByte(mod);
        if sib.Halted? { return Halted(sib.why); }
        offset, sr := sib.value.0, sib.value.1;
      } else if rm == 5 && mod == 0 {
        offset := Fetch32();
      } else {
        offset := regs[rm];
        if rm == 5 { sr := SS; }
      }
      if mod == 1 {
        var disp := Fetch8();
        offset := offset + Signed8(disp);
      } else if mod == 2 {
        var disp := Fetch32();
        offset := offset + disp;
      }
      r := Ok(Decoded(DMem, Wrap32(offset), Sz8, sr));
    }

    /** An immediate of the given size; sizes without one read nothing. */
    method FetchImm(size: Size) returns (v: u32)
      requires Valid()
      modifies this
      ensures v == ImmValue(old(Value()), size) && Value() == Skip(old(Value()), ImmBytes(size))
    {
      hide Code8, Code16, Code32;
      WrapSmall(eip);
      v := 0;
      if size == Sz8 { v := Fetch8(); } else if size == Sz16 { v := Fetch16(); } else if size == Sz32 { v := Fetch32();
        }
    }

    method FetchSigned(size: Size) returns (v: u32)
      requires Valid()
      modifies this
      ensures v == SignedImm(old(Value()), size) && Value() == Skip(old(Value()), ImmBytes(size))
    {
      hide Code8, Code16, Code32, Signed8, Signed16;
      v := FetchImm(size);
      if size == Sz8 { v := Wrap32(Signed8(v)); } else if size == Sz16 { v := Wrap32(Signed16(v)); }
    }

    /** decode_operand. */
    method DecodeOneOperand(rm: Decoded, reg: RegIndex, op: Operand) returns (r: Result<Decoded>)
      requires Valid()
      modifies this
      ensures Decodes(DecodeOperand(old(Value()), rm, reg, op), r, Value())
    {
      hide Code16, Code32, SignedImm, ImmValue, ImmBytes, ActualSize;
      var size := ActualSize(op.size, segs[CS].use32 != opOverride);
      match op.kind
      case KNone => return Ok(Decoded(DNone, 0, op.size, 0));
      case KOffset =>
        var a: u32;
        if segs[CS].use32 != addrOverride { a := Fetch32(); } else { a := Fetch16(); }
        return Ok(Decoded(DMem, a, size, sgmtOverride));
      case KMemModrm =>
        if !rm.kind.DMem? { return Halted(Spin); }
        var sr := OperandSegment(rm);
        return Ok(Decoded(rm.kind, rm.id, size, sr));
      case KRmModrm =>
        var sr := OperandSegment(rm);
        return Ok(Decoded(rm.kind, rm.id, size, sr));
      case KRegModrm => return Ok(Decoded(DReg, reg, size, 0));
      case KCregModrm => return Ok(Decoded(DCtrlReg, reg, size, 0));
      case KSegRegModrm => return Ok(Decoded(DSegReg, reg, size, 0));
      case KConstReg => return Ok(Decoded(DReg, op.value, size, 0));
      case KConstSegReg => return Ok(Decoded(DSegReg, op.value, size, 0));
      case KSimm =>
        var v := FetchSigned(size);
        return Ok(Decoded(DImm, v, size, 0));
      case KImm =>
        var v := FetchImm(size);
        return Ok(Decoded(DImm, v, size, 0));
      case KFarPtr =>
        var v := FetchImm(size);
        return Ok(Decoded(DImm, v, size, 0));
      case KConstant => return Ok(Decoded(DImm, op.value, size, 0));
      case KEdxEax => return Ok(Decoded(DEdxEax, 0, size, 0));
      case KIpRel =>
        var disp := FetchSigned(size);
        return Ok(Decoded(DImm, Wrap32(eip + disp), size, 0));
    }

    method OperandSegment(rm: Decoded) returns (sr: SegIndex)
      requires Valid()
      ensures sr == DecodedRm(Value(), rm, rm.size).sr
    {
      sr := sgmtOverride;
      if rm.sr != 0 { sr := rm.sr; }
      if overridingSgmt { sr := sgmtOverride; }
    }

    /** Everything between the opcode byte and the execution switch. */
    method DecodeInstruction(inst: Op) returns (r: Result<Ready>)
      requires Valid()
      modifies this
      ensures match Decode(old(Value()), inst)
              case Ok(i) => r.Ok? && i == r.value.On(Value())
              case Halted(why) => r == Halted(why)
    {
      hide DecodeRm16, DecodeRm32, DecodeOperand, Fixup, Code8;
      var reg: RegIndex := 0;
      var rm := NO_RM;
      if UsesModrm(inst) {
        var modrm := Fetch8();
        reg := RegOf(modrm);
        if segs[CS].use32 != addrOverride {
          var d := DecodeModrm32(modrm);
          if d.Halted? { return Halted(d.why); }
          rm := d.value;
        } else {
          rm := DecodeModrm16(modrm);
        }
      }
      var fixed := Fixup(inst, reg);
      if fixed.Halted? { return Halted(fixed.why); }
      var dst := DecodeOneOperand(rm, reg, fixed.value.dest);
      if dst.Halted? { return Halted(dst.why); }
      var src1 := DecodeOneOperand(rm, reg, fixed.value.src1);
      if src1.Halted? { return Halted(src1.why); }
      var src2 := DecodeOneOperand(rm, reg, fixed.value.src2);
      if src2.Halted? { return Halted(src2.why); }
      oldEip := eip;
      r := Ok(Ready(fixed.value, reg, dst.value, src1.value, src2.value));
    }

    // ----- One step -----

    method ExecuteInstruction(i: Ready, env: Env) returns (r: Outcome)
      requires Valid()
      modifies this, bus
      ensures Follows(Execute(i.On(old(Value())), env), r, Value())
    {
      hide DoEnter, DoLeave, DoAlu, DoAluSpecial, DoShift, DoPush, DoPop;
      hide DoPopSr, Machine.WriteDest, DoMov, DoMovToSr, DoCallNear;
      hide DoRetNear, DoJump, DoIncDec, DoInt, DoString, DoRepString, DoCbwCwde, DoCwdCdq, DoXchg, DoIn, DoLoop,
        Machine.Push;
      hide DoPopf, DoXlat, DoSahf, DoPusha, DoPopa, SetReg8, ToWord;
      var (dst, src1, src2, sub) := (i.dst, i.src1, i.src2, i.inst.subType);
      r := Done;
      match i.inst.opType
      case OpEnter => r := DoEnterOp(src1);
      case OpLeave => DoLeaveOp();
      case OpAlu => r := DoAluOp(sub, dst, src1, src2, i.reg);
      case OpAluSpecial => r := DoAluSpecialOp(sub, dst, src1, src2, i.inst.flags);
      case OpShift => r := DoShiftOp(i.reg, dst, src1, src2);
      case OpPush => r := DoPushOp(src1);
      case OpPop => r := DoPopOp(dst);
      case OpPopSr => r := DoPopSrOp(dst);
      case OpLea => r := WriteDest(dst, src1.id);
      case OpMov => r := DoMovOp(dst, src1);
      case OpMovToSr => r := DoMovToSrOp(dst, src1);
      case OpCallNear => r := DoCallNearOp(src1);
      case OpRetNear => r := DoRetNearOp(src1);
      case OpJump => r := DoNearJump(src1, sub);
      case OpClearFlag =>
        if sub >= 32 { return Stops(HostUndefined); }
        PutFlag(sub, false);
      case OpSetFlag =>
        if sub >= 32 { return Stops(HostUndefined); }
        PutFlag(sub, true);
      case OpIncDec => r := DoIncDecOp(sub, dst, src1);
      case OpInt => r := DoIntOp(src1, env);
      case OpString => r := DoStringOp(sub, i.inst.flags);
      case OpRepez => r := DoRepStringOp(sub, i.inst.flags, false);
      case OpRepne => r := DoRepStringOp(sub, i.inst.flags, true);
      case OpCbwCwde => r := DoExtend(false, dst, src1);
      case OpCwdCdq => r := DoExtend(true, dst, src1);
      case OpXchg => r := DoXchgOp(src1, src2);
      case OpIn => r := DoInOp(dst, src1, env);
      case OpLoop => r := DoLoopOp(sub, src1);
      case OpPushf => Push(ToWord(eflags));
      case OpPopf => DoPopfOp();
      case OpXlat => DoXlatOp();
      case OpSahf => DoSahfOp();
      case OpLahf => WriteReg8(EAX + 4, ToWord(eflags));
      case OpCmc => PutFlag(CARRY, !eflags[CARRY]);
      case OpPusha => DoPushaOp();
      case OpPopa => DoPopaOp();
      case _ => r := Stops(Spin);
    }

    /** The part of a step behind the prefixes. */
    method RunOpcode(opcode: u8, env: Env) returns (r: Outcome)
      requires Valid()
      modifies this, bus
      ensures Follows(RunBare(old(Value()), opcode, env), r, Value())
    {
      hide Code8, InstructionTable, ExtendedInstructionTable, Decode, Execute;
      var inst := InstructionTable(opcode);
      if inst.opType.OpExtended? {
        var second := Fetch8();
        inst := ExtendedInstructionTable(second);
      } else if inst.opType.OpRepez? || inst.opType.OpRepne? {
        var second := Fetch8();
        inst := InstructionTable(second).(opType := inst.opType);
      }
      var i := DecodeInstruction(inst);
      if i.Halted? { return Stops(i.why); }
      r := ExecuteInstruction(i.value, env);
    }

    /** i386_step: a prefix sets its override, steps again and clears it. */
    method StepAgain(env: Env, levels: nat) returns (r: Outcome)
      requires Valid()
      modifies this, bus
      ensures Follows(StepWithin(old(Value()), env, levels), r, Value())
      decreases levels
    {
      hide Code8, InstructionTable, RunBare, StepWithin, IsPrefix, Applied;
      ghost var s := Value();
      StepCases(s, env, levels);
      var opcode := Fetch8();
      var inst := InstructionTable(opcode);
      stepsRun := stepsRun + 1;
      assert Value() == Fetched(s);
      if !IsPrefix(opcode) {
        r := RunOpcode(opcode, env);
        return;
      }
      if levels == 0 { return Stops(EndlessPrefixes); }
      SetPrefix(inst);
      r := StepAgain(env, levels - 1);
      ClearPrefix(inst);
    }

    method SetPrefix(inst: Op)
      requires Valid()
      modifies this
      ensures forall s :: old(Value()) == Fetched(s) ==> Value() == Applied(inst, s)
    {
      if inst.opType.OpLock? {
        stepsRun := stepsRun - 1;
      } else if inst.opType.OpSizeOverride? {
        opOverride := true;
      } else if inst.opType.OpAddrOverride? {
        addrOverride := true;
      } else {
        overridingSgmt, sgmtOverride := true, OverrideSegment(inst);
      }
    }

    method ClearPrefix(inst: Op)
      requires Valid()
      modifies this
      ensures Undone(inst, Ok(old(Value()))) == Ok(Value())
    {
      if inst.opType.OpLock? { return; }
      if inst.opType.OpSizeOverride? {
        opOverride := false;
      } else if inst.opType.OpAddrOverride? {
        addrOverride := false;
      } else {
        sgmtOverride, overridingSgmt := DS, false;
      }
      stepsRun := stepsRun - 1;
    }

    /** A step taken apart by its opcode byte. */
    lemma StepCases(s: State, env: Env, levels: nat)
      ensures !IsPrefix(Code8(s)) ==> StepWithin(s, env, levels) == RunBare(Fetched(s), Code8(s), env)
      ensures IsPrefix(Code8(s)) && levels == 0 ==> StepWithin(s, env, levels) == Halted(EndlessPrefixes)
      ensures IsPrefix(Code8(s)) && levels > 0 ==>
                var inst := InstructionTable(Code8(s));
                StepWithin(s, env, levels) == Undone(inst, StepWithin(Applied(inst, s), env, levels - 1))
    {
      hide Code8, InstructionTable, RunBare;
    }

    method StepOnce(env: Env) returns (r: Outcome)
      requires Valid()
      modifies this, bus
      ensures Follows(Step.Step(old(Value()), env), r, Value())
    {
      r := StepAgain(env, TWO32);
    }

    // ----- Starting a subroutine -----

    /** The set-up of Exec32 and Exec386Subroutine_Near32: parameters from the last to the first, the escape address,
        and the jump. */
    method EnterSubroutine(target: u32, params: seq<u32>)
      requires Valid()
      modifies this, bus
      ensures Value() == Entering(old(Value()), target, params)
    {
      ghost var all := Parameters(params);
      assert all[0..] == all;
      var i := |params|;
      while i > 0
        invariant 0 <= i <= |params| && PushAll(old(Value()), all) == PushAll(Value(), all[|params| - i..])
      {
        i := i - 1;
        PushItem(params[i], all, |params| - 1 - i);
      }
      PushItem(ESCAPE, all, |params|);
      NothingToPush(Value(), all);
      eip := target;
    }

    /** Exec32, which lists each instruction before it runs it, and with `listed` false Exec386Subroutine_Near32: step
        until EIP is the escape address. It terminates for every subroutine that gets there, in `n` steps say, at the
        first arrival and with EAX, unless a listing runs off the end of memory. */
    method Exec(target: u32, params: seq<u32>, listed: bool, env: Env, ghost n: nat, ghost end: State)
      returns (r: Outcome, result: u32, ghost done: nat)
      requires Valid() && Steps(Entering(Value(), target, params), end, env, n) && end.eip == ESCAPE
      modifies this, bus
      ensures done <= n && Underway(Entering(old(Value()), target, params), Value(), env, done)
      ensures r.Done? ==> eip == ESCAPE && result == regs[EAX]
      ensures !r.Done? ==>
          listed && r == Stops(HostUndefined) && Length(bus[Index(eip)..], true, true) == Halted(HostUndefined)
    {
      hide Step.Step, Entering, Steps, Underway, Length;
      EnterSubroutine(target, params);
      ghost var start := Value();
      done, result := 0, 0;
      SetsOut(start, env);
      while eip != ESCAPE
        invariant done <= n && Steps(Value(), end, env, n - done) && Underway(start, Value(), env, done)
        decreases n - done
      {
        if listed {
          var size, _ := Dis386(bus[Index(eip)..], eip, true, true);
          ListingNeverSpins(bus[Index(eip)..], true, true);
          if size.Halted? { return Stops(size.why), 0, done; }
        }
        StepsOn(start, Value(), end, env, n - done, done);
        r := StepOnce(env);
        done := done + 1;
      }
      return Done, regs[EAX], done;
    }
  }

  /** The run from `s` is at `t` after `n` steps, and EIP was never the escape address on the way. */
  ghost predicate Underway(s: State, t: State, env: Env, n: nat)
    decreases n, s
  {
    if n == 0 then s == t
    else s.eip != ESCAPE && Step.Step(s, env).Ok? && Underway(Step.Step(s, env).value, t, env, n - 1)
  }

  lemma SetsOut(s: State, env: Env)
    ensures Underway(s, s, env, 0)
  {
    hide Step.Step;
  }

  lemma {:induction false} UnderwayOneMore(s: State, t: State, env: Env, n: nat)
    requires Underway(s, t, env, n) && t.eip != ESCAPE && Step.Step(t, env).Ok?
    ensures Underway(s, Step.Step(t, env).value, env, n + 1)
    decreases n
  {
    hide Step.Step;
    if n == 0 { SetsOut(Step.Step(t, env).value, env); } else { UnderwayOneMore(Step.Step(s, env).value, t, env, n - 1);
      }
  }

  /** A run that has not arrived but will can take another step. */
  lemma StepsOn(s: State, t: State, end: State, env: Env, k: nat, n: nat)
    requires Steps(t, end, env, k) && end.eip == ESCAPE && t.eip != ESCAPE && Underway(s, t, env, n)
    ensures k > 0 && Step.Step(t, env).Ok? && Steps(Step.Step(t, env).value, end, env, k - 1)
    ensures Underway(s, Step.Step(t, env).value, env, n + 1)
  {
    hide Step.Step, Underway;
    UnderwayOneMore(s, t, env, n);
  }

  const ESCAPE := 0xBEEF

  /** What is pushed for a call: the parameters in reverse, then the escape address. */
  function Parameters(params: seq<u32>): (all: seq<int>)
    ensures |all| == |params| + 1
  {
    seq(|params|, i requires 0 <= i < |params| => params[|params| - 1 - i] as int) + [ESCAPE]
  }

  function Entering(s: State, target: u32, params: seq<u32>): State { PushAll(s, Parameters(params)).(eip := target) }

  /** A called routine finds the escape address on top of the stack and parameter k above it, as a C caller would leave
      them. */
  lemma ParametersInOrder(s: State, target: u32, params: seq<u32>, k: nat)
    requires StackLaws.Room(s, |params| + 1) && k < |params|
    ensures StackLaws.SlotFromTop(Entering(s, target, params), 0) == StackLaws.Truncated(s, ESCAPE)
    ensures StackLaws.SlotFromTop(Entering(s, target, params), k + 1) == StackLaws.Truncated(s, params[k])
  {
    hide PushAll, StackLaws.Room;
    var all := Parameters(params);
    StackLaws.SlotsAfterPushes(s, all, 0);
    StackLaws.SlotsAfterPushes(s, all, k + 1);
    SameSlots(PushAll(s, all), Entering(s, target, params), 0);
    SameSlots(PushAll(s, all), Entering(s, target, params), k + 1);
  }

  lemma SameSlots(s: State, t: State, k: nat)
    requires t == s.(eip := t.eip)
    ensures StackLaws.SlotFromTop(s, k) == StackLaws.SlotFromTop(t, k)
  {
  }

  /** The decimal printer called as a subroutine comes to the escape address with the number printed, so that `Exec`
      terminates on it. */
  lemma PrinterEscapes(s: State, env: Env, target: u32)
    requires StackLaws.Room(s, 1) && !s.segs[SS].use32 && UpdateScore.Printable(Entering(s, target, []))
    ensures exists n, end :: Steps(Entering(s, target, []), end, env, n) && end.eip == ESCAPE
                          && UpdateScore.Printed(Entering(s, target, []), end)
  {
    hide Steps, UpdateScore.CODE, BytesAt, UpdateScore.Cells, UpdateScore.DrawnFrame, UpdateScore.Others, PushAll;
    var t := Entering(s, target, []);
    UpdateScore.UpdateScorePrints(t, env);
    var end :| Reaches(t, end, env) && UpdateScore.Printed(t, end);
    var n :| Steps(t, end, env, n);
    EscapeOnTop(s, target);
  }

  lemma EscapeOnTop(s: State, target: u32)
    requires StackLaws.Room(s, 1) && !s.segs[SS].use32
    ensures var t := Entering(s, target, []); Read16(t.mem, UpdateScore.SlotOf(t, t.regs[ESP])) == ESCAPE
  {
    hide PushAll, Read16, Read32;
    var all := Parameters([]);
    var p := PushAll(s, all);
    StackLaws.SlotsAfterPushes(s, all, 0);
    StackLaws.PushAllEffect(s, all);
    WrapSmall(p.regs[ESP]);
  }
}
