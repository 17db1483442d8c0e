/** Multi-word addition and subtraction: ADD then ADC, SUB then SBB, over any number of byte or word limbs. */
module CarryChain {
  import opened Words
  import opened I386
  import opened Machine
  import opened FlagLaws

  /** One ALU instruction of a chain, between the states before and after it. */
  datatype Limb = Limb(before: State, dst: Decoded, src1: Decoded, src2: Decoded, after: State)

  function Held(s: State, d: Decoded): int
  {
    match ReadSource(s, d)
    case Ok(v) => v
    case Halted(_) => 0
  }

  /** The limb's instruction runs `op` on two operands of its size, into a register or memory. */
  ghost predicate Runs(l: Limb, op: nat, size: Size)
  {
    && l.dst.size == size && l.src1.size == size && (l.dst.kind.DReg? || l.dst.kind.DMem?)
    && ReadSource(l.before, l.src1).Ok? && Held(l.before, l.src1) < Limit(size)
    && ReadSource(l.before, l.src2).Ok? && Held(l.before, l.src2) < Limit(size)
    && DoAlu(l.before, op, l.dst, l.src1, l.src2, 0) == Ok(l.after)
  }

  /** `first` on the lowest limb and `rest` on the others. Between two limbs anything may run that leaves CF
      alone: see `KeepsCarry`. */
  ghost predicate Chain(limbs: seq<Limb>, first: nat, rest: nat, size: Size)
  {
    && |limbs| > 0
    && (forall i :: 0 <= i < |limbs| ==> Runs(limbs[i], if i == 0 then first else rest, size))
    && (forall i :: 0 < i < |limbs| ==> limbs[i].before.eflags[CARRY] == limbs[i - 1].after.eflags[CARRY])
  }

  function Lefts(limbs: seq<Limb>): seq<int>
  {
    seq(|limbs|, i requires 0 <= i < |limbs| => Held(limbs[i].before, limbs[i].src1))
  }

  function Rights(limbs: seq<Limb>): seq<int>
  {
    seq(|limbs|, i requires 0 <= i < |limbs| => Held(limbs[i].before, limbs[i].src2))
  }

  /** What each destination holds after its instruction. */
  function Results(limbs: seq<Limb>): seq<int>
  {
    seq(|limbs|, i requires 0 <= i < |limbs| => Held(limbs[i].after, limbs[i].dst))
  }

  function FinalFlag(limbs: seq<Limb>, flag: int): bool
    requires |limbs| > 0 && 0 <= flag < 32
  {
    limbs[|limbs| - 1].after.eflags[flag]
  }

  // ----- Multi-limb numbers, lowest limb first -----

  function Scale(p: int, x: int): int { p * x }

  function Power(base: int, n: nat): int { if n == 0 then 1 else base * Power(base, n - 1) }

  function Value(vs: seq<int>, size: Size): int
  {
    if |vs| == 0 then 0
    else Value(vs[..|vs| - 1], size) + Power(Limit(size), |vs| - 1) * vs[|vs| - 1]
  }

  /** The two's complement reading of all limbs together. */
  function SignedValue(vs: seq<int>, size: Size): int
  {
    var (v, p) := (Value(vs, size), Power(Limit(size), |vs|));
    if 2 * v >= p then v - p else v
  }

  predicate AreLimbs(vs: seq<int>, size: Size) { forall i :: 0 <= i < |vs| ==> 0 <= vs[i] < Limit(size) }

  lemma {:induction false} ValueBound(vs: seq<int>, size: Size)
    requires AreLimbs(vs, size)
    ensures 0 <= Value(vs, size) < Power(Limit(size), |vs|)
    ensures Power(Limit(size), |vs|) >= 1
  {
    if |vs| > 0 {
      var (n, m) := (|vs| - 1, Limit(size));
      ValueBound(vs[..n], size);
      Scaled(Value(vs[..n], size), vs[n], Power(m, n), m);
    }
  }

  /** `low + p * top` lies in [0, p * m) when `low` lies in [0, p) and `top` in [0, m). */
  lemma Scaled(low: int, top: int, p: int, m: int)
    requires 0 <= low < p && 0 <= top < m
    ensures 0 <= low + p * top < m * p
  {
    assert p * top >= 0;
    ProductAtLeast(m - top, p);
    SplitProduct(m, top, p);
  }

  lemma ValueTop(vs: seq<int>, low: seq<int>, top: int, size: Size)
    requires vs == low + [top] && AreLimbs(low, size) && 0 <= top < Limit(size)
    ensures AreLimbs(vs, size)
    ensures Value(vs, size) == Value(low, size) + Power(Limit(size), |low|) * top
    ensures 0 <= Value(low, size) < Power(Limit(size), |low|)
  {
    assert vs[..|low|] == low;
    ValueBound(low, size);
  }

  /** The value and the sign of a number split at its top limb. */
  lemma SignedTop(vs: seq<int>, low: seq<int>, top: int, size: Size)
    requires FlagSize(size) && vs == low + [top] && AreLimbs(low, size) && 0 <= top < Limit(size)
    ensures SignedValue(vs, size) == Value(low, size) + Power(Limit(size), |low|) * SignedOf(top, size)
  {
    var (m, p) := (Limit(size), Power(Limit(size), |low|));
    assert Power(m, |vs|) == m * p;
    ValueTop(vs, low, top, size);
    SignedLimb(top, size);
    hide Value, Power, Limit, SignedOf, AreLimbs;
    TopDecides(Value(low, size), top, p, m);
    Distribute(p, top, m);
  }

  lemma Distribute(p: int, x: int, m: int)
    ensures p * (x - m) == p * x - m * p
  {
  }

  lemma SignedLimb(v: int, size: Size)
    requires FlagSize(size) && 0 <= v < Limit(size)
    ensures SignedOf(v, size) == if 2 * v >= Limit(size) then v - Limit(size) else v
  {
  }

  lemma TopDecides(low: int, top: int, p: int, m: int)
    requires 0 <= low < p && m % 2 == 0
    ensures 2 * (low + p * top) >= m * p <==> 2 * top >= m
    ensures -(m * p) <= 2 * (low + p * top) < m * p <==> -m <= 2 * top < m
  {
    assert m * p == p * m;
    Doubled(low, top, p, m);
    Doubled(low, top, p, -m);
    assert p * -m == -(m * p);
  }

  /** `2 * (low + p * top)` reaches `p * m` exactly when `2 * top` reaches `m`. */
  lemma Doubled(low: int, top: int, p: int, m: int)
    requires 0 <= low < p && m % 2 == 0
    ensures 2 * (low + p * top) >= p * m <==> 2 * top >= m
  {
    var d := m / 2 - top;
    assert p * m - 2 * (p * top) == 2 * (p * d) by { assert p * (m - 2 * top) == p * (2 * d); }
    if d >= 1 { ProductAtLeast(d, p); assert p * d >= p; } else { assert p * -d >= 0; }
  }

  // ----- One limb -----

  /** A destination reads back what was written, truncated to its size, and the write leaves the flags. */
  lemma WriteThenRead(s: State, d: Decoded, v: int)
    requires d.kind.DReg? || d.kind.DMem?
    requires FlagSize(d.size) && WriteDest(s, d, v).Ok?
    ensures ReadSource(WriteDest(s, d, v).value, d) == Ok(Reduced(v, d.size))
  {
    if d.kind.DMem? {
      hide SetReg8, SetReg16, SetReg32, Reg8, Reg16, Read8, Read16, Read32, Write8, Write16, Write32, Wrap32;
      ReadBack(s.mem, Linear(s, d.sr, d.id), v);
    } else {
      hide Write8, Write16, Write32, Read8, Read16, Read32, Low8, High8, Low16, PutLow8, PutHigh8, PutLow16;
      PartialWrites(s.regs[d.id], v);
      if d.id >= 4 { PartialWrites(s.regs[d.id - 4], v); }
    }
  }

  function AddOrSub(sub: bool, a: int, b: int): int { if sub then a - b else a + b }

  /** What a carry flag is worth when it stands for `weight`. */
  function Carried(flag: bool, weight: int): int { if flag then weight else 0 }

  /** The carry an instruction takes in: none for ADD and SUB, CF for ADC and SBB. */
  function CarryIn(l: Limb, op: nat): (c: nat)
    ensures c <= 1
  {
    if op == ALU_ADC || op == ALU_SBB then Bit(l.before.eflags[CARRY]) else 0
  }

  /** An ALU instruction that writes back its result: what it writes and the flags it leaves. */
  lemma AluWrites(l: Limb, op: nat, size: Size, r: u32, e: Bits32)
    requires FlagSize(size) && Runs(l, op, size) && op != ALU_CMP && op != ALU_MULTI
    requires AluResult(op, l.before.eflags, Held(l.before, l.src1), Held(l.before, l.src2), size) == Ok((r, e))
    ensures WriteDest(l.before.(eflags := e), l.dst, r) == Ok(l.after) && l.after.eflags == e
    ensures Held(l.after, l.dst) == Reduced(r, size)
  {
    hide ReadSource, WriteDest, AluResult, Reduced;
    assert DoAlu(l.before, op, l.dst, l.src1, l.src2, 0) == WriteDest(l.before.(eflags := e), l.dst, r);
    WriteThenRead(l.before.(eflags := e), l.dst, r);
  }

  lemma OperandRange(l: Limb, op: nat, size: Size)
    requires FlagSize(size) && Runs(l, op, size)
    ensures 0 <= Held(l.before, l.src1) < Limit(size) <= TWO32 && 0 <= Held(l.before, l.src2) < Limit(size)
  {
    hide ReadSource, DoAlu;
  }

  /** One limb of a sum or, with `sub`, of a difference. */
  ghost predicate LimbComputes(x: int, y: int, z: int, c: int, sub: bool, carry: bool, overflow: bool, size: Size)
  {
    var d := AddOrSub(sub, SignedOf(x, size), SignedOf(y, size) + c);
    && 0 <= x < Limit(size) && 0 <= y < Limit(size) && 0 <= z < Limit(size)
    && AddOrSub(sub, z, Carried(carry, Limit(size))) == AddOrSub(sub, x, y + c)
    && (overflow <==> !InSignedRange(d, size))
    && (InSignedRange(d, size) ==> SignedOf(z, size) == d)
  }

  lemma AddResult(x: u32, y: u32, e: Bits32, op: nat, size: Size)
    requires Narrow(size) && (op == ALU_ADD || op == ALU_ADC)
    ensures var c := if op == ALU_ADC then Bit(e[CARRY]) else 0;
            var r := Wrap32(x + y + c);
            var f := AddFlags(e, x, y, r, size);
            && AluResult(op, e, x, y, size) == Ok((r, f))
            && f[CARRY] == CarryBit(r, size) && f[OVERFLOW] == OverflowAdd(x, y, r, size)
  {
    hide CarryBit, OverflowAdd, Wrap32, SetAux, SetSZP, And32, Or32, Xor32;
  }

  lemma AddLimb(l: Limb, op: nat, size: Size)
    requires Narrow(size) && Runs(l, op, size) && (op == ALU_ADD || op == ALU_ADC)
    ensures LimbComputes(Held(l.before, l.src1), Held(l.before, l.src2), Held(l.after, l.dst), CarryIn(l, op), false,
                         l.after.eflags[CARRY], l.after.eflags[OVERFLOW], size)
  {
    hide Runs, AddFlags, AluResult, Held, LimbComputes, CarryBit, OverflowAdd, Wrap32, Reduced;
    OperandRange(l, op, size);
    var (x, y, c) := (Held(l.before, l.src1), Held(l.before, l.src2), CarryIn(l, op));
    var r := Wrap32(x + y + c);
    var e := AddFlags(l.before.eflags, x, y, r, size);
    AddResult(x, y, l.before.eflags, op, size);
    AluWrites(l, op, size, r, e);
    AddedLimb(x, y, c, r, size);
  }

  lemma AddedLimb(x: u32, y: u32, c: nat, r: u32, size: Size)
    requires Narrow(size) && c <= 1 && x < Limit(size) && y < Limit(size) && r == Wrap32(x + y + c)
    ensures LimbComputes(x, y, Reduced(r, size), c, false, CarryBit(r, size), OverflowAdd(x, y, r, size), size)
  {
    hide Wrap32, Reduced, SignedOf, CarryBit, OverflowAdd, InSignedRange, Limit;
    Carry(x, y, c, size);
    AddSign(x, y, c, r, size);
    ReducedRange(x, y, r, size);
    ReducedSum(x, y, c, size);
  }

  lemma SubResult(x: u32, y: u32, e: Bits32, op: nat, size: Size)
    requires Narrow(size) && (op == ALU_SUB || op == ALU_SBB)
    ensures var c := if op == ALU_SBB then Bit(e[CARRY]) else 0;
            var r := Wrap32(x - y - c);
            var f := SubFlags(e, x, y, r, size);
            && AluResult(op, e, x, y, size) == Ok((r, f))
            && f[CARRY] == CarryBit(r, size) && f[OVERFLOW] == OverflowSub(x, y, r, size)
  {
    hide CarryBit, OverflowSub, Wrap32, SetAux, SetSZP, And32, Or32, Xor32;
  }

  lemma SubLimb(l: Limb, op: nat, size: Size)
    requires Narrow(size) && Runs(l, op, size) && (op == ALU_SUB || op == ALU_SBB)
    ensures LimbComputes(Held(l.before, l.src1), Held(l.before, l.src2), Held(l.after, l.dst), CarryIn(l, op), true,
                         l.after.eflags[CARRY], l.after.eflags[OVERFLOW], size)
  {
    hide Runs, SubFlags, AluResult, Held, LimbComputes, CarryBit, OverflowSub, Wrap32, Reduced;
    OperandRange(l, op, size);
    var (x, y, c) := (Held(l.before, l.src1), Held(l.before, l.src2), CarryIn(l, op));
    var r := Wrap32(x - y - c);
    var e := SubFlags(l.before.eflags, x, y, r, size);
    SubResult(x, y, l.before.eflags, op, size);
    AluWrites(l, op, size, r, e);
    SubtractedLimb(x, y, c, r, size);
  }

  lemma SubtractedLimb(x: u32, y: u32, c: nat, r: u32, size: Size)
    requires Narrow(size) && c <= 1 && x < Limit(size) && y < Limit(size) && r == Wrap32(x - y - c)
    ensures LimbComputes(x, y, Reduced(r, size), c, true, CarryBit(r, size), OverflowSub(x, y, r, size), size)
  {
    hide Wrap32, Reduced, SignedOf, CarryBit, OverflowSub, InSignedRange, Limit;
    Borrow(x, y, c, size);
    SubSign(x, y, c, r, size);
    ReducedRange(x, y, r, size);
    ReducedDifference(x, y, c, size);
  }

  lemma ReducedRange(x: int, y: int, r: int, size: Size)
    requires FlagSize(size)
    ensures 0 <= x < Limit(size) ==> Reduced(x, size) == x
    ensures 0 <= y < Limit(size) ==> Reduced(y, size) == y
    ensures 0 <= Reduced(r, size) < Limit(size) && SignedOf(Reduced(r, size), size) == SignedOf(r, size)
  {
  }

  // ----- Chains -----

  /** Two operands and a result, read unsigned and signed. */
  datatype Sum = Sum(x: int, y: int, z: int, sx: int, sy: int, sz: int)

  /** On numbers below `p`: `z` is the sum or difference modulo `p`, `carry` is what was carried out or
      borrowed, and `overflow` says that the signed result does not fit. */
  ghost predicate NumberComputes(s: Sum, p: int, sub: bool, carry: bool, overflow: bool)
  {
    var signed := AddOrSub(sub, s.sx, s.sy);
    && AddOrSub(sub, s.z, Carried(carry, p)) == AddOrSub(sub, s.x, s.y)
    && (overflow <==> !(-p <= 2 * signed < p))
    && (!overflow ==> s.sz == signed)
  }

  ghost predicate Computes(xs: seq<int>, ys: seq<int>, zs: seq<int>, sub: bool, carry: bool, overflow: bool, size: Size)
  {
    && |xs| == |ys| == |zs| && AreLimbs(xs, size) && AreLimbs(ys, size) && AreLimbs(zs, size)
    && NumberComputes(Sum(Value(xs, size), Value(ys, size), Value(zs, size),
                          SignedValue(xs, size), SignedValue(ys, size), SignedValue(zs, size)),
                      Power(Limit(size), |zs|), sub, carry, overflow)
  }

  ghost predicate ChainComputes(limbs: seq<Limb>, sub: bool, size: Size)
    requires |limbs| > 0
  {
    Computes(Lefts(limbs), Rights(limbs), Results(limbs), sub, FinalFlag(limbs, CARRY), FinalFlag(limbs, OVERFLOW),
      size)
  }

  lemma ShorterChain(limbs: seq<Limb>, first: nat, rest: nat, size: Size)
    requires Chain(limbs, first, rest, size) && |limbs| > 1
    ensures var n := |limbs| - 1;
            Chain(limbs[..n], first, rest, size) && limbs[n].before.eflags[CARRY] == FinalFlag(limbs[..n], CARRY)
  {
    hide Runs;
  }

  /** ADD then ADCs over n limbs: the n-limb sum modulo W^n, CF its true carry, OF its true signed overflow. */
  lemma {:induction false} AddChain(limbs: seq<Limb>, size: Size)
    requires Narrow(size) && Chain(limbs, ALU_ADD, ALU_ADC, size)
    ensures ChainComputes(limbs, false, size)
  {
    hide LimbComputes, Computes, Runs, FinalFlag;
    var n := |limbs| - 1;
    var op := if n == 0 then ALU_ADD else ALU_ADC;
    AddLimb(limbs[n], op, size);
    if n > 0 {
      ShorterChain(limbs, ALU_ADD, ALU_ADC, size);
      AddChain(limbs[..n], size);
    }
    AddTopLimb(limbs, op, false, size);
  }

  /** SUB then SBBs over n limbs: the n-limb difference modulo W^n, CF its true borrow, OF its overflow. */
  lemma {:induction false} SubChain(limbs: seq<Limb>, size: Size)
    requires Narrow(size) && Chain(limbs, ALU_SUB, ALU_SBB, size)
    ensures ChainComputes(limbs, true, size)
  {
    hide LimbComputes, Computes, Runs, FinalFlag;
    var n := |limbs| - 1;
    var op := if n == 0 then ALU_SUB else ALU_SBB;
    SubLimb(limbs[n], op, size);
    if n > 0 {
      ShorterChain(limbs, ALU_SUB, ALU_SBB, size);
      SubChain(limbs[..n], size);
    }
    AddTopLimb(limbs, op, true, size);
  }

  /** From a chain on the lower limbs, if any, and its top limb to the whole chain. */
  lemma AddTopLimb(limbs: seq<Limb>, op: nat, sub: bool, size: Size)
    requires Narrow(size) && |limbs| > 0
    requires |limbs| > 1 ==> ChainComputes(limbs[..|limbs| - 1], sub, size)
    requires |limbs| > 1 ==> CarryIn(limbs[|limbs| - 1], op) == Bit(FinalFlag(limbs[..|limbs| - 1], CARRY))
    requires |limbs| == 1 ==> CarryIn(limbs[0], op) == 0
    requires var l := limbs[|limbs| - 1];
             LimbComputes(Held(l.before, l.src1), Held(l.before, l.src2), Held(l.after, l.dst), CarryIn(l, op), sub,
                          l.after.eflags[CARRY], l.after.eflags[OVERFLOW], size)
    ensures ChainComputes(limbs, sub, size)
  {
    var n := |limbs| - 1;
    var (l, low) := (limbs[n], limbs[..n]);
    var (x, y, z) := (Held(l.before, l.src1), Held(l.before, l.src2), Held(l.after, l.dst));
    var (xs, ys, zs) := (Lefts(low), Rights(low), Results(low));
    var c := n > 0 && FinalFlag(low, CARRY);
    hide CarryIn, Held, LimbComputes;
    assert Lefts(limbs) == xs + [x] && Rights(limbs) == ys + [y] && Results(limbs) == zs + [z];
    LimbOnTop(xs, x, ys, y, zs, z, c, sub, FinalFlag(limbs, CARRY), FinalFlag(limbs, OVERFLOW), size);
  }

  lemma LimbOnTop(xs: seq<int>, x: int, ys: seq<int>, y: int, zs: seq<int>, z: int, c: bool, sub: bool,
                  carry: bool, overflow: bool, size: Size)
    requires Narrow(size) && |xs| == |ys| == |zs|
    requires AreLimbs(xs, size) && AreLimbs(ys, size) && AreLimbs(zs, size)
    requires AddOrSub(sub, Value(zs, size), Carried(c, Power(Limit(size), |zs|)))
          == AddOrSub(sub, Value(xs, size), Value(ys, size))
    requires LimbComputes(x, y, z, Bit(c), sub, carry, overflow, size)
    ensures Computes(xs + [x], ys + [y], zs + [z], sub, carry, overflow, size)
  {
    hide SignedOf, SignedValue, Value, Limit, AreLimbs, InSignedRange, Scale, Power, NumberComputes, AddOrSub;
    var (m, p) := (Limit(size), Power(Limit(size), |zs|));
    var (sx, sy, sz) := (SignedOf(x, size), SignedOf(y, size), SignedOf(z, size));
    RangeDoubled(AddOrSub(sub, sx, sy + Bit(c)), size);
    TopFacts(xs, x, size);
    TopFacts(ys, y, size);
    TopFacts(zs, z, size);
    var top := Sum(Value(xs + [x], size), Value(ys + [y], size), Value(zs + [z], size),
                   SignedValue(xs + [x], size), SignedValue(ys + [y], size), SignedValue(zs + [z], size));
    WholeNumber(p, m, Value(xs, size), x, Value(ys, size), y, Value(zs, size), z, sx, sy, sz, c, carry, overflow, sub,
      top);
  }

  lemma TopFacts(low: seq<int>, top: int, size: Size)
    requires FlagSize(size) && AreLimbs(low, size) && 0 <= top < Limit(size)
    ensures var (vs, p) := (low + [top], Power(Limit(size), |low|));
            && AreLimbs(vs, size) && Power(Limit(size), |vs|) == Scale(Limit(size), p)
            && Value(vs, size) == Value(low, size) + Scale(p, top) && 0 <= Value(low, size) < p
            && SignedValue(vs, size) == Value(low, size) + Scale(p, SignedOf(top, size))
  {
    hide Value, SignedValue, SignedOf, Limit, AreLimbs;
    ValueTop(low + [top], low, top, size);
    SignedTop(low + [top], low, top, size);
  }

  lemma RangeDoubled(d: int, size: Size)
    ensures InSignedRange(d, size) <==> -Limit(size) <= 2 * d < Limit(size)
  {
  }

  /** The arithmetic of `LimbOnTop`. */
  lemma WholeNumber(p: int, m: int, xl: int, x: int, yl: int, y: int, zl: int, z: int, sx: int, sy: int, sz: int,
                    c: bool, carry: bool, overflow: bool, sub: bool, whole: Sum)
    requires m % 2 == 0 && 0 <= zl < p
    requires AddOrSub(sub, zl, Carried(c, p)) == AddOrSub(sub, xl, yl)
    requires AddOrSub(sub, z, Carried(carry, m)) == AddOrSub(sub, x, y + Bit(c))
    requires var d := AddOrSub(sub, sx, sy + Bit(c)); (overflow <==> !(-m <= 2 * d < m)) && (!overflow ==> sz == d)
    requires whole.x == xl + Scale(p, x) && whole.sx == xl + Scale(p, sx)
    requires whole.y == yl + Scale(p, y) && whole.sy == yl + Scale(p, sy)
    requires whole.z == zl + Scale(p, z) && whole.sz == zl + Scale(p, sz)
    ensures NumberComputes(whole, Scale(m, p), sub, carry, overflow)
  {
    WholeSum(p, m, x, y, z, c, carry, sub);
    var d := AddOrSub(sub, sx, sy + Bit(c));
    WholeSum(p, m, sx, sy, d, c, false, sub);
    TopDecides(zl, d, p, m);
  }

  /** The top limbs' equation, scaled by the weight of the top limb. */
  lemma WholeSum(p: int, m: int, x: int, y: int, z: int, c: bool, k: bool, sub: bool)
    requires AddOrSub(sub, z, Carried(k, m)) == AddOrSub(sub, x, y + Bit(c))
    ensures AddOrSub(sub, p * z, Carried(k, m * p)) == AddOrSub(sub, p * x, p * y + Carried(c, p))
  {
    var (carried, bit) := (Carried(k, m), Bit(c));
    if !sub {
      assert p * z == p * (x + y + bit - carried) == p * x + p * y + p * bit - p * carried;
    } else {
      assert p * z == p * (x - y - bit + carried) == p * x - p * y - p * bit + p * carried;
    }
    assert p * carried == Carried(k, m * p);
  }

  lemma {:induction false} ValueInjective(vs: seq<int>, us: seq<int>, size: Size)
    requires AreLimbs(vs, size) && AreLimbs(us, size) && |vs| == |us|
    requires Value(vs, size) == Value(us, size)
    ensures vs == us
  {
    if |vs| > 0 {
      var n := |vs| - 1;
      TopQuotient(vs, size);
      TopQuotient(us, size);
      ValueInjective(vs[..n], us[..n], size);
      assert vs == vs[..n] + [vs[n]] && us == us[..n] + [us[n]];
    }
  }

  lemma TopQuotient(vs: seq<int>, size: Size)
    requires AreLimbs(vs, size) && |vs| > 0
    ensures var p := Power(Limit(size), |vs| - 1);
            p > 0 && Value(vs, size) / p == vs[|vs| - 1] && Value(vs, size) % p == Value(vs[..|vs| - 1], size)
  {
    var n := |vs| - 1;
    var p := Power(Limit(size), n);
    ValueBound(vs[..n], size);
    assert Value(vs, size) == vs[n] * p + Value(vs[..n], size);
    DivModUnique(Value(vs, size), vs[n], Value(vs[..n], size), p);
  }

  /** Subtracting the addend back recovers every limb of the other operand, and borrows exactly what the
      addition carried. */
  lemma SubtractingBackRecovers(sum: seq<Limb>, difference: seq<Limb>, size: Size)
    requires Narrow(size)
    requires Chain(sum, ALU_ADD, ALU_ADC, size) && Chain(difference, ALU_SUB, ALU_SBB, size)
    requires Lefts(difference) == Results(sum) && Rights(difference) == Rights(sum)
    ensures Results(difference) == Lefts(sum)
    ensures FinalFlag(difference, CARRY) == FinalFlag(sum, CARRY)
  {
    AddChain(sum, size);
    SubChain(difference, size);
    assert |sum| == |difference| by { assert |Rights(difference)| == |Rights(sum)|; }
    ValueBound(Results(difference), size);
    ValueBound(Lefts(sum), size);
    ValueInjective(Results(difference), Lefts(sum), size);
  }

  // ----- Chains of 32-bit limbs -----

  /** The sum or difference of two limbs, modulo the limb size, and whether it carries or borrows. */
  function LimbResult(x: int, y: int, sub: bool, m: int): int
    requires m > 0
  {
    AddOrSub(sub, x, y) % m
  }

  predicate LimbCarries(x: int, y: int, sub: bool, m: int) { if sub then x < y else x + y >= m }

  ghost predicate Limbwise(xs: seq<int>, ys: seq<int>, zs: seq<int>, sub: bool, size: Size)
  {
    && |xs| == |ys| == |zs| && AreLimbs(xs, size) && AreLimbs(ys, size)
    && forall i :: 0 <= i < |zs| ==> zs[i] == LimbResult(xs[i], ys[i], sub, Limit(size))
  }

  predicate NoCarry(xs: seq<int>, ys: seq<int>, sub: bool, size: Size)
    requires |xs| == |ys|
  {
    forall i :: 0 <= i < |xs| ==> !LimbCarries(xs[i], ys[i], sub, Limit(size))
  }

  /** What each limb carries or borrows, at the limb's own weight. */
  function CarriedLimbs(xs: seq<int>, ys: seq<int>, sub: bool, m: int): seq<int>
    requires |xs| == |ys|
  {
    seq(|xs|, i requires 0 <= i < |xs| => Carried(LimbCarries(xs[i], ys[i], sub, m), m))
  }

  lemma {:induction false} ValueSums(a: seq<int>, b: seq<int>, c: seq<int>, size: Size)
    requires |a| == |b| == |c| && forall i :: 0 <= i < |a| ==> a[i] == b[i] + c[i]
    ensures Value(a, size) == Value(b, size) + Value(c, size)
    decreases |a|
  {
    if |a| > 0 {
      var n := |a| - 1;
      ValueSums(a[..n], b[..n], c[..n], size);
      var p := Power(Limit(size), n);
      assert p * a[n] == p * (b[n] + c[n]) == p * b[n] + p * c[n];
    }
  }

  /** Limb-by-limb arithmetic is off by exactly what it has carried. */
  lemma LimbwiseLoses(xs: seq<int>, ys: seq<int>, zs: seq<int>, sub: bool, size: Size)
    requires FlagSize(size) && Limbwise(xs, ys, zs, sub, size)
    ensures AreLimbs(zs, size)
    ensures AddOrSub(sub, Value(zs, size), Value(CarriedLimbs(xs, ys, sub, Limit(size)), size)) ==
        AddOrSub(sub, Value(xs, size), Value(ys, size))
  {
    hide Limit, Value, LimbResult, LimbCarries, Carried;
    var (ks, m) := (CarriedLimbs(xs, ys, sub, Limit(size)), Limit(size));
    forall i | 0 <= i < |zs| ensures 0 <= zs[i] < m && AddOrSub(sub, zs[i], ks[i]) == AddOrSub(sub, xs[i], ys[i]) {
      LimbLoses(xs[i], ys[i], sub, m);
    }
    if sub {
      var all := seq(|zs|, i requires 0 <= i < |zs| => xs[i] + ks[i]);
      ValueSums(all, xs, ks, size);
      ValueSums(all, zs, ys, size);
    } else {
      var all := seq(|zs|, i requires 0 <= i < |zs| => xs[i] + ys[i]);
      ValueSums(all, xs, ys, size);
      ValueSums(all, zs, ks, size);
    }
  }

  lemma LimbLoses(x: int, y: int, sub: bool, m: int)
    requires m > 0 && 0 <= x < m && 0 <= y < m
    ensures var z := LimbResult(x, y, sub, m);
            0 <= z < m && AddOrSub(sub, z, Carried(LimbCarries(x, y, sub, m), m)) == AddOrSub(sub, x, y)
  {
    var v := AddOrSub(sub, x, y);
    var c := LimbCarries(x, y, sub, m);
    DivModUnique(v, if !c then 0 else if sub then -1 else 1, AddOrSub(!sub, v, Carried(c, m)), m);
  }

  /** The carries amount to nothing exactly when there are none, and to less than two units above the top. */
  lemma {:induction false} CarriesAmount(xs: seq<int>, ys: seq<int>, sub: bool, size: Size)
    requires FlagSize(size) && |xs| == |ys|
    ensures var lost := Value(CarriedLimbs(xs, ys, sub, Limit(size)), size);
            0 <= lost < 2 * Power(Limit(size), |xs|) && (lost == 0 <==> NoCarry(xs, ys, sub, size))
    decreases |xs|
  {
    hide LimbCarries;
    if |xs| > 0 {
      var n := |xs| - 1;
      CarriesAmount(xs[..n], ys[..n], sub, size);
      LastCarry(xs, ys, sub, size);
      hide Value, Limit, CarriedLimbs;
      NoCarrySplits(xs, ys, sub, size);
      PowersGrow(size, n);
    }
  }

  lemma PowersGrow(size: Size, n: nat)
    requires FlagSize(size)
    ensures 1 <= Power(Limit(size), n) && 2 * Power(Limit(size), n) < Power(Limit(size), n + 1)
  {
    var zeros := seq(n, i => 0);
    ValueBound(zeros, size);
    var p := Power(Limit(size), n);
    assert Limit(size) * p >= 3 * p by { SplitProduct(Limit(size), 3, p); }
  }

  lemma LastCarry(xs: seq<int>, ys: seq<int>, sub: bool, size: Size)
    requires |xs| == |ys| > 0
    ensures var n := |xs| - 1;
            Value(CarriedLimbs(xs, ys, sub, Limit(size)), size)
              == Value(CarriedLimbs(xs[..n], ys[..n], sub, Limit(size)), size)
                 + if LimbCarries(xs[n], ys[n], sub, Limit(size)) then Power(Limit(size), n + 1) else 0
  {
    hide LimbCarries, Limit;
    var n := |xs| - 1;
    var ks := CarriedLimbs(xs, ys, sub, Limit(size));
    assert ks[..n] == CarriedLimbs(xs[..n], ys[..n], sub, Limit(size));
    var p := Power(Limit(size), n);
    assert p * Limit(size) == Limit(size) * p;
  }

  lemma NoCarrySplits(xs: seq<int>, ys: seq<int>, sub: bool, size: Size)
    requires |xs| == |ys| > 0
    ensures var n := |xs| - 1;
            NoCarry(xs, ys, sub, size) <==>
              NoCarry(xs[..n], ys[..n], sub, size) && !LimbCarries(xs[n], ys[n], sub, Limit(size))
  {
    hide LimbCarries;
    var n := |xs| - 1;
    if NoCarry(xs[..n], ys[..n], sub, size) {
      forall i | 0 <= i < n ensures !LimbCarries(xs[i], ys[i], sub, Limit(size)) {
        assert !LimbCarries(xs[..n][i], ys[..n][i], sub, Limit(size));
      }
    }
  }

  /** ADD or SUB and ADC or SBB on dwords: the carry is always clear, so each limb stands alone. */
  lemma {:induction false} DwordLimbs(limbs: seq<Limb>, sub: bool)
    requires Chain(limbs, if sub then ALU_SUB else ALU_ADD, if sub then ALU_SBB else ALU_ADC, Sz32)
    ensures Limbwise(Lefts(limbs), Rights(limbs), Results(limbs), sub, Sz32)
    ensures forall i :: 0 <= i < |limbs| ==> !limbs[i].after.eflags[CARRY]
  {
    hide Runs, Held, LimbResult;
    forall i | 0 <= i < |limbs|
      ensures 0 <= Held(limbs[i].before, limbs[i].src1) < TWO32 && 0 <= Held(limbs[i].before, limbs[i].src2) < TWO32
      ensures !limbs[i].after.eflags[CARRY]
    {
      DwordClears(limbs, sub, i);
    }
    forall i | 0 <= i < |limbs|
      ensures Held(limbs[i].after, limbs[i].dst) ==
          LimbResult(Held(limbs[i].before, limbs[i].src1), Held(limbs[i].before, limbs[i].src2), sub, TWO32)
    {
      DwordClears(limbs, sub, i);
      DwordLimb(limbs[i], if i == 0 then (if sub then ALU_SUB else ALU_ADD) else if sub then ALU_SBB else ALU_ADC, sub);
    }
  }

  lemma DwordClears(limbs: seq<Limb>, sub: bool, i: nat)
    requires Chain(limbs, if sub then ALU_SUB else ALU_ADD, if sub then ALU_SBB else ALU_ADC, Sz32) && i < |limbs|
    ensures 0 <= Held(limbs[i].before, limbs[i].src1) < TWO32 && 0 <= Held(limbs[i].before, limbs[i].src2) < TWO32
    ensures !limbs[i].after.eflags[CARRY] && (i > 0 ==> !limbs[i].before.eflags[CARRY])
  {
    hide Runs, Held;
    DwordLimb(limbs[i], if i == 0 then (if sub then ALU_SUB else ALU_ADD) else if sub then ALU_SBB else ALU_ADC, sub);
    if i > 0 {
      DwordLimb(limbs[i - 1], if i == 1 then (if sub then ALU_SUB else ALU_ADD) else if sub then ALU_SBB
        else ALU_ADC, sub);
    }
  }

  lemma DwordLimb(l: Limb, op: nat, sub: bool)
    requires Runs(l, op, Sz32) && (if sub then op == ALU_SUB || op == ALU_SBB else op == ALU_ADD || op == ALU_ADC)
    ensures !l.after.eflags[CARRY]
    ensures 0 <= Held(l.before, l.src1) < TWO32 && 0 <= Held(l.before, l.src2) < TWO32
    ensures CarryIn(l, op) == 0 ==>
        Held(l.after, l.dst) == LimbResult(Held(l.before, l.src1), Held(l.before, l.src2), sub, TWO32)
  {
    hide Runs, AddFlags, SubFlags, AluResult, Held, CarryBit;
    OperandRange(l, op, Sz32);
    var (x, y, c) := (Held(l.before, l.src1), Held(l.before, l.src2), CarryIn(l, op));
    var r := Wrap32(if sub then x - y - c else x + y + c);
    var e := if sub then SubFlags(l.before.eflags, x, y, r, Sz32) else AddFlags(l.before.eflags, x, y, r, Sz32);
    DwordResult(x, y, l.before.eflags, op, sub, c, r);
    AluWrites(l, op, Sz32, r, e);
  }

  lemma DwordResult(x: u32, y: u32, e: Bits32, op: nat, sub: bool, c: nat, r: u32)
    requires if sub then op == ALU_SUB || op == ALU_SBB else op == ALU_ADD || op == ALU_ADC
    requires c == (if op == ALU_ADC || op == ALU_SBB then Bit(e[CARRY]) else 0)
        && r == Wrap32(if sub then x - y - c else x + y + c)
    ensures var f := if sub then SubFlags(e, x, y, r, Sz32) else AddFlags(e, x, y, r, Sz32);
            AluResult(op, e, x, y, Sz32) == Ok((r, f)) && !f[CARRY]
    ensures Reduced(r, Sz32) == r
  {
    hide OverflowSub, OverflowAdd, Wrap32, SetAux, SetSZP, And32, Or32, Xor32;
    WrapSmall(r);
  }

  /** Over n dword limbs the chain is the n-limb sum, or difference, modulo 2^(32n) exactly when no limb below the top
      carries, or borrows. */
  lemma DwordChainExact(limbs: seq<Limb>, sub: bool)
    requires Chain(limbs, if sub then ALU_SUB else ALU_ADD, if sub then ALU_SBB else ALU_ADC, Sz32)
    ensures var (xs, ys, zs, n) := (Lefts(limbs), Rights(limbs), Results(limbs), |limbs| - 1);
            && Power(TWO32, n + 1) > 0
            && (Value(zs, Sz32) == AddOrSub(sub, Value(xs, Sz32), Value(ys, Sz32)) % Power(TWO32, n + 1)
                <==> NoCarry(xs[..n], ys[..n], sub, Sz32))
  {
    hide Runs, Held, Value, Limbwise, NoCarry, Lefts, Rights, Results;
    var (xs, ys, zs, n) := (Lefts(limbs), Rights(limbs), Results(limbs), |limbs| - 1);
    DwordLimbs(limbs, sub);
    ChainLengths(limbs);
    LimbwiseIsExact(xs, ys, zs, sub, n);
  }

  lemma ChainLengths(limbs: seq<Limb>)
    ensures |Lefts(limbs)| == |Rights(limbs)| == |Results(limbs)| == |limbs|
  {
  }

  lemma LimbwiseIsExact(xs: seq<int>, ys: seq<int>, zs: seq<int>, sub: bool, n: nat)
    requires |zs| == n + 1 && Limbwise(xs, ys, zs, sub, Sz32) && |xs| == |ys| == n + 1
    ensures Power(TWO32, n + 1) > 0
    ensures Value(zs, Sz32) == AddOrSub(sub, Value(xs, Sz32), Value(ys, Sz32)) % Power(TWO32, n + 1) <==>
        NoCarry(xs[..n], ys[..n], sub, Sz32)
  {
    hide Value, Power, NoCarry, LimbCarries, Limbwise, CarriedLimbs, AreLimbs;
    var (v, z, p) := (AddOrSub(sub, Value(xs, Sz32), Value(ys, Sz32)), Value(zs, Sz32), Power(TWO32, n + 1));
    LimbwiseLoses(xs, ys, zs, sub, Sz32);
    SameCounts(xs, ys, zs, sub, n);
    LastCarry(xs, ys, sub, Sz32);
    CarriesAmount(xs[..n], ys[..n], sub, Sz32);
    PowersGrow(Sz32, n);
    ValueBound(zs, Sz32);
    var lost := Value(CarriedLimbs(xs[..n], ys[..n], sub, TWO32), Sz32);
    OffByLess(z, lost, p, LimbCarries(xs[n], ys[n], sub, TWO32), sub, v);
  }

  lemma SameCounts(xs: seq<int>, ys: seq<int>, zs: seq<int>, sub: bool, n: nat)
    requires |zs| == n + 1 && Limbwise(xs, ys, zs, sub, Sz32)
    ensures |xs| == |ys| == n + 1
  {
  }

  /** Off by less than the modulus, plus the modulus itself or not, is off unless by nothing. */
  lemma OffByLess(z: int, lost: int, p: int, c: bool, sub: bool, v: int)
    requires 0 <= z < p && 0 <= lost < p && v == AddOrSub(sub, z, lost + if c then p else 0)
    ensures z == v % p <==> lost == 0
  {
    var k := if !c then 0 else if sub then -1 else 1;
    var w := AddOrSub(sub, z, lost);
    assert k * p == if !c then 0 else if sub then -p else p;
    AddMultiple(w, k, p);
    if 0 <= w < p { DivModUnique(w, 0, w, p); }
    else if w >= p { DivModUnique(w, 1, w - p, p); }
    else { DivModUnique(w, -1, w + p, p); }
  }

  // ----- What may run between limbs -----

  ghost predicate KeepsCarry(s: State, r: Result<State>)
  {
    r.Ok? ==> r.value.eflags[CARRY] == s.eflags[CARRY]
  }

  /** INC, DEC, MOV, PUSH, POP, LOOP and a jump leave CF as it was, so pointers and counters can be advanced
      between limbs. */
  lemma LoopInstructionsKeepCarry(s: State, version: nat, dst: Decoded, src: Decoded, kind: nat)
    ensures KeepsCarry(s, DoIncDec(s, version, dst, src))
    ensures KeepsCarry(s, DoMov(s, dst, src))
    ensures KeepsCarry(s, DoPush(s, src)) && KeepsCarry(s, DoPop(s, dst))
    ensures KeepsCarry(s, DoLoop(s, kind, src)) && KeepsCarry(s, DoJump(s, src, kind))
  {
    hide ReadSource, WriteDest, JumpCondition, SetAux, SetSZP, OverflowAdd, OverflowSub, Push, Top;
  }
}
