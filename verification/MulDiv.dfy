/** Widening multiply and divide: the F6/F7 group on the accumulator. */
module MulDiv {
  import opened Words
  import opened I386
  import opened Machine
  import opened FlagLaws
  import opened Step
  import CarryChain

  /** The operands `fixup_f6` gives MUL, IMUL, DIV and IDIV. */
  function Accumulator(size: Size): Decoded { Decoded(DReg, EAX, size, 0) }

  function Dividend(size: Size): Decoded
  {
    match size
    case Sz8 => Decoded(DReg, EAX, Sz16, 0)
    case Sz16 => Decoded(DEdxEax, 0, Sz32, 0)
    case _ => Decoded(DEdxEax, 0, Sz64, 0)
  }

  function Multiplying(s: State, op: nat, src: Decoded, size: Size): Result<State>
  {
    DoAluSpecial(s, op, Accumulator(size), Accumulator(size), src, WRITE_DX)
  }

  function Dividing(s: State, op: nat, src: Decoded, size: Size): Result<State>
  {
    DoAluSpecial(s, op, Accumulator(size), Dividend(size), src, WRITE_DX)
  }

  /** AL, AX or EAX; AH, DX or EDX; and the double-width AX, DX:AX or EDX:EAX. */
  function Low(s: State, size: Size): int
  {
    match size
    case Sz8 => Reg8(s, EAX)
    case Sz16 => Reg16(s, EAX)
    case _ => s.regs[EAX]
  }

  function High(s: State, size: Size): int
  {
    match size
    case Sz8 => Reg8(s, EAX + 4)
    case Sz16 => Reg16(s, EDX)
    case _ => s.regs[EDX]
  }

  function Double(s: State, size: Size): int { Limit(size) * High(s, size) + Low(s, size) }

  function SignedDoubleOf(s: State, size: Size): int { SignedDouble(Double(s, size), OperandBits(size)) }

  /** Only the two halves of the accumulator may have changed. */
  ghost predicate OnlyAccumulator(s: State, t: State, size: Size)
  {
    && t == s.(regs := t.regs)
    && (forall r :: 0 <= r < 8 && r != EAX && (r != EDX || size.Sz8?) ==> t.regs[r] == s.regs[r])
    && (!size.Sz32? ==> t.regs[EAX] / TWO16 == s.regs[EAX] / TWO16 && t.regs[EDX] / TWO16 == s.regs[EDX] / TWO16)
  }

  /** Writing a low and a high half into the accumulator. */
  function WriteHalves(s: State, size: Size, low: int, high: int): State
  {
    match size
    case Sz8 => SetReg8(SetReg8(s, EAX, low), EAX + 4, high)
    case Sz16 => SetReg16(SetReg16(s, EAX, low), EDX, high)
    case _ => SetReg32(SetReg32(s, EAX, low), EDX, high)
  }

  lemma Halves(s: State, size: Size, low: int, high: int)
    requires FlagSize(size)
    ensures var t := WriteHalves(s, size, low, high);
            && Low(t, size) == Reduced(low, size) && High(t, size) == Reduced(high, size)
            && OnlyAccumulator(s, t, size)
  {
    hide PutLow8, PutHigh8, PutLow16, Low8, High8, Low16, Wrap8, Wrap16, Wrap32;
    PartialWrites(s.regs[EAX], low);
    PartialWrites(s.regs[EDX], high);
    if size.Sz8? {
      PartialWrites(PutLow8(s.regs[EAX], low), high);
    }
  }

  lemma AccumulatorWrites(s: State, op: nat, src1: Decoded, src2: Decoded, size: Size, a: u64, b: u64, x: Special)
    requires FlagSize(size) && ReadSource(s, src1) == Ok(a) && ReadSource(s, src2) == Ok(b)
    requires SpecialResult(op, s.eflags, a, b, OperandBits(size), src1.size) == Ok(x) && x.eflags == s.eflags
    ensures DoAluSpecial(s, op, Accumulator(size), src1, src2, WRITE_DX) == Ok(WriteHalves(s, size, x.res, x.rem))
  {
    hide ReadSource, SpecialResult, SetReg8, SetReg16, SetReg32;
    assert s.(eflags := x.eflags) == s;
  }

  /** The two halves of a number hold it modulo m^2. */
  lemma SplitMod(v: int, m: int)
    requires m > 1
    ensures 0 <= m * (v / m % m) + v % m < m * m
    ensures m * (v / m % m) + v % m == v % (m * m)
  {
    var (q, r) := (v / m, v % m);
    var (q2, r2) := (q / m, q % m);
    Recompose(q2, r2, r, m);
    DivModUnique(v, q2, m * r2 + r, m * m);
  }

  lemma Recompose(q: int, r2: int, r: int, m: int)
    requires 0 <= r < m && 0 <= r2 < m
    ensures m * (m * q + r2) + r == q * (m * m) + (m * r2 + r)
    ensures 0 <= m * r2 + r < m * m
  {
    ProductAtLeast(m - r2, m);
    assert (m - r2) * m == m * m - m * r2;
    assert m * (m * q) == q * (m * m);
  }

  /** A 2w-bit number is its two w-bit halves, read unsigned or signed. */
  lemma SplitDouble(v: int, size: Size)
    requires FlagSize(size)
    ensures var d := Limit(size) * Reduced(HighPart(v, OperandBits(size)), size) + Reduced(v, size);
            && (0 <= v < Limit(size) * Limit(size) ==> d == v)
            && (-Limit(size) * Limit(size) <= 2 * v < Limit(size) * Limit(size) ==>
                  SignedDouble(d, OperandBits(size)) == v)
  {
    match size
    case Sz8 => SplitMod(v, TWO8); SignedMod(v, TWO16);
    case Sz16 => SplitMod(v, TWO16); SignedMod(v, TWO32);
    case Sz32 => SplitMod(v, TWO32); SignedMod(v, TWO64);
  }

  lemma SignedMod(v: int, m: int)
    requires m > 0
    ensures 0 <= v < m ==> v % m == v
    ensures 0 < -v <= m ==> v % m == v + m
    ensures v % m % m == v % m
  {
    if 0 < -v <= m { WrapNegative(v, m); }
  }

  lemma ProductBound(a: int, b: int, m: int)
    requires 0 <= a < m && 0 <= b < m
    ensures 0 <= a * b < m * m
  {
    assert 0 <= a * b <= a * m by { SplitProduct(m, b, a); assert (m - b) * a >= 0; assert b * a >= 0; }
    SplitProduct(m, a, m);
    ProductAtLeast(m - a, m);
  }

  lemma AbsoluteBound(x: int, y: int, h: int)
    requires 0 <= x <= h && 0 <= y <= h
    ensures 0 <= x * y <= h * h
  {
    assert 0 <= x * y;
    assert (h - x) * y >= 0 && (h - y) * h >= 0;
    SplitProduct(h, x, y);
    SplitProduct(h, y, h);
  }

  lemma AbsoluteProduct(a: int, b: int)
    ensures a * b == Abs(a) * Abs(b) || a * b == -(Abs(a) * Abs(b))
  {
  }

  lemma SignedProductBound(a: int, b: int, m: int)
    requires m % 2 == 0 && -m <= 2 * a < m && -m <= 2 * b < m
    ensures -m * m <= 2 * (a * b) < m * m
  {
    var h := m / 2;
    AbsoluteBound(Abs(a), Abs(b), h);
    AbsoluteProduct(a, b);
    ProductAtLeast(h, h);
    assert m * m == 4 * (h * h) && -m * m == -4 * (h * h) by { assert m == 2 * h; }
  }

  lemma DoubleOf(s: State, size: Size)
    requires FlagSize(size)
    ensures 0 <= Low(s, size) < Limit(size) && 0 <= High(s, size) < Limit(size)
    ensures ReadSource(s, Accumulator(size)) == Ok(Low(s, size))
    ensures ReadSource(s, Dividend(size)) == Ok(Double(s, size))
  {
    if size.Sz8? { SplitRegister(s.regs[EAX]); Parts(s.regs[EAX] / TWO16, High8(s.regs[EAX]), Low8(s.regs[EAX])); }
  }

  /** MUL: the double-width accumulator is the exact product; nothing else changes. */
  lemma MulExact(s: State, src: Decoded, v: int, size: Size)
    requires FlagSize(size) && 0 <= v < Limit(size) && ReadSource(s, src) == Ok(v)
    ensures Multiplying(s, ALU_MUL, src, size).Ok?
    ensures var t := Multiplying(s, ALU_MUL, src, size).value;
            Double(t, size) == Low(s, size) * v && OnlyAccumulator(s, t, size)
  {
    hide ReadSource, DoAluSpecial, Low, High, Limit, Reduced, HighPart, OnlyAccumulator, WriteHalves, OperandBits;
    hide SpecialResult;
    DoubleOf(s, size);
    var (a, p, bits) := (Low(s, size), Low(s, size) * v, OperandBits(size));
    ProductBound(a, v, Limit(size));
    MulResult(s.eflags, a, v, size);
    AccumulatorWrites(s, ALU_MUL, Accumulator(size), src, size, a, v, Special(p, HighPart(p, bits), s.eflags));
    Halves(s, size, p, HighPart(p, bits));
    SplitDouble(p, size);
  }

  lemma MulResult(e: Bits32, a: int, b: int, size: Size)
    requires FlagSize(size) && 0 <= a < Limit(size) && 0 <= b < Limit(size)
    ensures SpecialResult(ALU_MUL, e, a, b, OperandBits(size), size)
         == Ok(Special(a * b, HighPart(a * b, OperandBits(size)), e))
  {
    hide HighPart;
    ProductBound(a, b, TWO32);
  }

  /** IMUL: the double-width accumulator, read signed, is the exact signed product. */
  lemma ImulExact(s: State, src: Decoded, v: int, size: Size)
    requires FlagSize(size) && 0 <= v < Limit(size) && ReadSource(s, src) == Ok(v)
    ensures Multiplying(s, ALU_IMUL, src, size).Ok?
    ensures var t := Multiplying(s, ALU_IMUL, src, size).value;
            && SignedDoubleOf(t, size) == SignedOf(Low(s, size), size) * SignedOf(v, size)
            && OnlyAccumulator(s, t, size)
  {
    hide ReadSource, DoAluSpecial, Low, High, Limit, Reduced, HighPart, OnlyAccumulator, WriteHalves, OperandBits;
    hide SpecialResult, SignedOf, SignedDouble;
    DoubleOf(s, size);
    var bits := OperandBits(size);
    var (a, b) := (SignedOf(Low(s, size), size), SignedOf(v, size));
    SignedHalf(Low(s, size), size);
    SignedHalf(v, size);
    SignedProductBound(a, b, Limit(size));
    ImulResult(s.eflags, Low(s, size), v, size);
    AccumulatorWrites(s, ALU_IMUL, Accumulator(size), src, size, Low(s, size), v,
                      Special(a * b, HighPart(a * b, bits), s.eflags));
    Halves(s, size, a * b, HighPart(a * b, bits));
    SplitDouble(a * b, size);
  }

  lemma SignedHalf(v: int, size: Size)
    requires FlagSize(size)
    ensures -Limit(size) <= 2 * SignedOf(v, size) < Limit(size)
    ensures SignedOf(v, size) == SignedAt(v, OperandBits(size))
  {
  }

  lemma ImulResult(e: Bits32, a: u64, b: u64, size: Size)
    requires FlagSize(size)
    ensures var p := SignedOf(a, size) * SignedOf(b, size);
            SpecialResult(ALU_IMUL, e, a, b, OperandBits(size), size) ==
              Ok(Special(p, HighPart(p, OperandBits(size)), e))
  {
    hide HighPart, Signed8, Signed16, Signed32;
  }

  /** DIV by a nonzero operand: the remainder is always right, and dividend = quotient * divisor + remainder
      holds exactly when the high half is below the divisor, that is, when the quotient fits. A quotient that
      does not fit is truncated without a fault. */
  lemma DivExact(s: State, src: Decoded, v: int, size: Size)
    requires FlagSize(size) && 0 < v < Limit(size) && ReadSource(s, src) == Ok(v)
    ensures Dividing(s, ALU_DIV, src, size).Ok?
    ensures var t := Dividing(s, ALU_DIV, src, size).value;
            && High(t, size) == Double(s, size) % v && OnlyAccumulator(s, t, size)
            && Low(t, size) == Double(s, size) / v % Limit(size)
            && (Double(s, size) == Low(t, size) * v + High(t, size) <==> High(s, size) < v)
  {
    hide ReadSource, DoAluSpecial, Low, High, Limit, Reduced, OnlyAccumulator, WriteHalves, OperandBits, SpecialResult;
    hide FlagSize, Dividend;
    DoubleOf(s, size);
    var (n, m) := (Double(s, size), Limit(size));
    DivResult(s, v, size);
    AccumulatorWrites(s, ALU_DIV, Dividend(size), src, size, n, v, Special(n / v, n % v, s.eflags));
    Halves(s, size, n / v, n % v);
    ReducedMod(n / v, size);
    ReducedMod(n % v, size);
    QuotientFits(n, v, m, Low(s, size), High(s, size));
  }

  lemma DivResult(s: State, v: u64, size: Size)
    requires FlagSize(size) && v > 0
    ensures 0 <= Double(s, size) < TWO64
    ensures var n := Double(s, size);
            SpecialResult(ALU_DIV, s.eflags, n, v, OperandBits(size), Dividend(size).size) ==
              Ok(Special(n / v, n % v, s.eflags))
  {
    hide Low8, High8, Low16;
  }

  lemma ReducedMod(v: int, size: Size)
    requires FlagSize(size)
    ensures Reduced(v, size) == v % Limit(size)
    ensures 0 <= v < Limit(size) ==> Reduced(v, size) == v
  {
  }

  lemma QuotientFits(n: int, v: int, m: int, low: int, high: int)
    requires 0 < v && m > 0 && 0 <= low < m && 0 <= high && n == m * high + low
    ensures n == n / v % m * v + n % v <==> high < v
  {
    var q := n / v;
    QuotientBelow(n, v, m, low, high);
    if high < v {
      DivModUnique(q, 0, q, m);
    } else {
      assert q % m < q;
      ProductAtLeast(q - q % m, v);
      SplitProduct(q, q % m, v);
    }
  }

  lemma QuotientBelow(n: int, v: int, m: int, low: int, high: int)
    requires 0 < v && m > 0 && 0 <= low < m && 0 <= high && n == m * high + low
    ensures 0 <= n / v && (n / v < m <==> high < v)
  {
    var q := n / v;
    assert m * high >= 0;
    if high < v {
      ProductMonotone(v, high + 1, m);
      if q >= m { ProductMonotone(q, m, v); }
    } else {
      ProductMonotone(high, v, m);
      if m >= q + 1 { ProductMonotone(m, q + 1, v); }
    }
  }

  lemma ProductMonotone(a: int, b: int, v: int)
    requires a >= b && v >= 0
    ensures a * v >= b * v
  {
    SplitProduct(a, b, v);
    assert (a - b) * v >= 0;
  }

  /** What IDIV divides and by what, and when the host itself faults. */
  predicate HostDivides(n: int, d: int, size: Size)
  {
    d != 0 && !(d == -1 && size.Sz16? && n == -0x8000_0000) && !(d == -1 && size.Sz32? && n == -0x8000_0000_0000_0000)
  }

  /** IDIV truncates toward zero: the remainder is right whenever the host divides, and the stored quotient is
      the true one exactly when that fits the operand size. */
  lemma IdivExact(s: State, src: Decoded, v: int, size: Size)
    requires FlagSize(size) && 0 <= v < Limit(size) && ReadSource(s, src) == Ok(v)
    ensures var (n, d) := (SignedDoubleOf(s, size), SignedOf(v, size));
            var r := Dividing(s, ALU_IDIV, src, size);
            && (r.Ok? <==> HostDivides(n, d, size))
            && (r.Ok? ==>
                  && OnlyAccumulator(s, r.value, size)
                  && SignedOf(High(r.value, size), size) == TruncMod(n, d)
                  && (SignedOf(Low(r.value, size), size) == TruncDiv(n, d) <==> InSignedRange(TruncDiv(n, d), size)))
  {
    hide ReadSource, DoAluSpecial, Low, High, Reduced, OnlyAccumulator, WriteHalves, OperandBits, SpecialResult;
    hide Dividend, SignedDoubleOf, SignedOf, Limit, TruncDiv, TruncMod, InSignedRange;
    DoubleOf(s, size);
    DivResult(s, 1, size);
    var (n, d) := (SignedDoubleOf(s, size), SignedOf(v, size));
    IdivResult(s, v, size);
    if HostDivides(n, d, size) {
      var (q, r) := (TruncDiv(n, d), TruncMod(n, d));
      AccumulatorWrites(s, ALU_IDIV, Dividend(size), src, size, Double(s, size), v, Special(q, r, s.eflags));
      Halves(s, size, q, r);
      TruncDivMod(n, d);
      SignedHalf(v, size);
      SignedReduced(q, size);
      SignedReduced(r, size);
    } else {
      SpecialHalts(s, ALU_IDIV, Accumulator(size), Dividend(size), src, WRITE_DX, Double(s, size), v);
    }
  }

  lemma SpecialHalts(s: State, op: nat, dst: Decoded, src1: Decoded, src2: Decoded, flags: nat, a: u64, b: u64)
    requires ReadSource(s, src1) == Ok(a) && ReadSource(s, src2) == Ok(b)
    requires SpecialResult(op, s.eflags, a, b, OperandBits(dst.size), src1.size).Halted?
    ensures DoAluSpecial(s, op, dst, src1, src2, flags).Halted?
  {
    hide ReadSource, SpecialResult;
  }

  lemma SignedReduced(v: int, size: Size)
    requires FlagSize(size)
    ensures SignedOf(Reduced(v, size), size) == v <==> InSignedRange(v, size)
    ensures InSignedRange(v, size) <==> -Limit(size) <= 2 * v < Limit(size)
  {
    hide Reduced, SignedOf, SignBit, ZeroBits, Limit;
    var (m, x) := (Limit(size), Reduced(v, size));
    ReducedSign(v, size);
    ReducedIs(v, size);
    ReducedSign(x, size);
    ReducedIs(x, size);
    DivModUnique(x, 0, x, m);
    if x == v || x - m == v { DivModUnique(v, if x == v then 0 else -1, x, m); }
    if -m <= 2 * v < m { DivModUnique(v, if v >= 0 then 0 else -1, if v >= 0 then v else v + m, m); }
  }

  lemma IdivResult(s: State, v: u64, size: Size)
    requires FlagSize(size) && 0 <= Double(s, size) < TWO64
    ensures var (n, d) := (SignedDoubleOf(s, size), SignedOf(v, size));
            var r := SpecialResult(ALU_IDIV, s.eflags, Double(s, size), v, OperandBits(size), Dividend(size).size);
            if HostDivides(n, d, size) then r == Ok(Special(TruncDiv(n, d), TruncMod(n, d), s.eflags)) else r.Halted?
  {
    hide Double, TruncDiv, TruncMod, Signed8, Signed16, Signed32, Signed64;
  }

  // ----- Sequences -----

  /** An operand that a write to the accumulator leaves alone. */
  predicate NotAccumulator(d: Decoded, size: Size)
  {
    || d.kind.DMem?
    || (d.kind.DReg? && d.id < 8 && if size.Sz8? then d.id != EAX && d.id != EAX + 4 else d.id != EAX && d.id != EDX)
  }

  lemma OperandKept(s: State, t: State, d: Decoded, size: Size)
    requires FlagSize(size) && d.size == size && NotAccumulator(d, size) && OnlyAccumulator(s, t, size)
    ensures ReadSource(t, d) == ReadSource(s, d)
  {
    hide Read8, Read16, Read32;
  }

  /** MUL r then DIV r gives the accumulator back, with a zero high half. */
  lemma MulThenDiv(s: State, src: Decoded, v: int, size: Size)
    requires FlagSize(size) && src.size == size && NotAccumulator(src, size)
    requires 0 < v < Limit(size) && ReadSource(s, src) == Ok(v)
    ensures Multiplying(s, ALU_MUL, src, size).Ok?
    ensures var t := Multiplying(s, ALU_MUL, src, size).value;
            && Dividing(t, ALU_DIV, src, size).Ok?
            && Low(Dividing(t, ALU_DIV, src, size).value, size) == Low(s, size)
            && High(Dividing(t, ALU_DIV, src, size).value, size) == 0
  {
    hide ReadSource, DoAluSpecial, Low, High, Limit, OnlyAccumulator, FlagSize, NotAccumulator, Double;
    MulExact(s, src, v, size);
    var t := Multiplying(s, ALU_MUL, src, size).value;
    OperandKept(s, t, src, size);
    DivExact(t, src, v, size);
    DoubleOf(s, size);
    var a := Low(s, size);
    assert Double(t, size) == a * v;
    DivModUnique(a * v, a, 0, v);
    DivModUnique(a, 0, a, Limit(size));
  }

  /** CBW, CWD or CDQ: the operand that extends the accumulator into its high half. */
  function Extending(s: State, size: Size): Result<State>
  {
    match size
    case Sz8 => DoCbwCwde(s, Decoded(DReg, EAX, Sz16, 0), Accumulator(Sz8))
    case Sz16 => DoCwdCdq(s, Dividend(Sz16), Accumulator(Sz16))
    case _ => DoCwdCdq(s, Dividend(Sz32), Accumulator(Sz32))
  }

  /** CBW, CWD and CDQ: the double-width accumulator becomes the signed value of the low half. */
  lemma ExtendingExact(s: State, size: Size)
    requires FlagSize(size)
    ensures Extending(s, size).Ok?
    ensures var t := Extending(s, size).value;
            && SignedDoubleOf(t, size) == SignedOf(Low(s, size), size) && OnlyAccumulator(s, t, size)
  {
    hide OnlyAccumulator, SignedDouble, HighPart, Extending, WriteHalves, Low, High, SignedOf, Reduced;
    var v := SignedOf(Low(s, size), size);
    ExtendingHalves(s, size);
    SignedHalf(Low(s, size), size);
    Halves(s, size, v, HighPart(v, OperandBits(size)));
    LimitSquared(v, size);
    SplitDouble(v, size);
  }

  lemma LimitSquared(v: int, size: Size)
    requires -Limit(size) <= 2 * v < Limit(size)
    ensures -Limit(size) * Limit(size) <= 2 * v < Limit(size) * Limit(size)
  {
  }

  lemma ExtendingHalves(s: State, size: Size)
    requires FlagSize(size)
    ensures var v := SignedOf(Low(s, size), size);
            Extending(s, size) == Ok(WriteHalves(s, size, v, HighPart(v, OperandBits(size))))
  {
    hide PutLow8, PutHigh8, PutLow16, Signed8, Signed16, Signed32, Wrap32;
    var v := SignedOf(Low(s, size), size);
    PartialWrites(s.regs[EAX], v);
    var t := WriteHalves(s, size, v, HighPart(v, OperandBits(size)));
    assert Extending(s, size).Ok?;
    assert Extending(s, size).value.regs == t.regs;
  }

  /** CBW, CWD or CDQ before IDIV divides the signed accumulator; the quotient is right unless it is the most
      negative value divided by -1. */
  lemma ExtendThenIdiv(s: State, t: State, src: Decoded, v: int, size: Size)
    requires FlagSize(size) && src.size == size && NotAccumulator(src, size)
    requires 0 < v < Limit(size) && ReadSource(s, src) == Ok(v)
    requires Extending(s, size) == Ok(t)
    ensures SignedOf(v, size) != 0
    ensures var (a, d) := (SignedOf(Low(s, size), size), SignedOf(v, size));
            var r := Dividing(t, ALU_IDIV, src, size);
            && r.Ok? && SignedOf(High(r.value, size), size) == TruncMod(a, d)
            && (SignedOf(Low(r.value, size), size) == TruncDiv(a, d) <==> !(2 * a == -Limit(size) && d == -1))
  {
    var (a, d) := (SignedOf(Low(s, size), size), SignedOf(v, size));
    SignedHalf(Low(s, size), size);
    SignedHalf(v, size);
    assert d != 0 && HostDivides(a, d, size);
    hide ReadSource, DoAluSpecial, Low, High, OnlyAccumulator, FlagSize, NotAccumulator, SignedOf, SignedDoubleOf;
    hide Extending, TruncDiv, TruncMod, HostDivides, Limit, InSignedRange;
    ExtendingExact(s, size);
    OperandKept(s, t, src, size);
    IdivExact(t, src, v, size);
    SignedReduced(TruncDiv(a, d), size);
    TruncFits(a, d, Limit(size));
  }

  lemma TruncFits(a: int, d: int, m: int)
    requires d != 0 && m > 0 && m % 2 == 0 && -m <= 2 * a < m
    ensures -m <= 2 * TruncDiv(a, d) < m <==> !(2 * a == -m && d == -1)
  {
    var (x, e) := (Abs(a), Abs(d));
    if e >= 2 { HalvedQuotient(x, e); }
  }

  lemma HalvedQuotient(x: int, e: int)
    requires x >= 0 && e >= 2
    ensures 0 <= 2 * (x / e) <= x
  {
    var k := x / e;
    assert k * e <= x;
    ProductMonotone(e, 2, k);
  }

  /** These are the operands an F6 or F7 instruction decodes to: the reg field picks the operation, the ModR/M
      operand is the multiplier or divisor. */
  lemma GroupOperands(s: State, rm: Decoded, reg: RegIndex, wide: bool)
    requires ALU_MUL <= reg <= ALU_IDIV
    ensures var inst := InstructionTable(if wide then 0xF7 else 0xF6);
            var size := if !wide then Sz8 else if OpSize32(s) then Sz32 else Sz16;
            var fixed := inst.(subType := reg, flags := WRITE_DX, dest := ConstReg(inst.src1.size, EAX),
                               src1 := GroupSource(reg, inst.src1), src2 := Rm(inst.src1.size));
            && Fixup(inst, reg) == Ok(fixed)
            && DecodeOperands(s, rm, reg, fixed)
               == Ok(Instruction(fixed, reg, Accumulator(size), if reg >= ALU_DIV then Dividend(size)
                 else Accumulator(size),
                                 DecodedRm(s, rm, size), s.(oldEip := s.eip)))
  {
    hide Code8, Code16, Code32, DecodedRm;
  }

  function GroupSource(reg: nat, operand: Operand): Operand
  {
    if reg < ALU_DIV then ConstReg(operand.size, EAX)
    else if operand.size == Sz8 then ConstReg(Sz16, EAX)
    else Operand(KEdxEax, Sz3264, operand.value)
  }

  // ----- IMUL with a destination of its own -----

  /** IMUL of two operands into a register, opcodes 69, 6B and 0F AF: the register holds the signed product modulo the
      operand size, and nothing else changes, flags included. */
  lemma ImulIntoRegister(s: State, dst: Decoded, src1: Decoded, src2: Decoded, flags: nat, a: u64, b: u64)
    requires dst.kind.DReg? && dst.id < 8 && FlagSize(dst.size) && !WritesDx(flags)
    requires ReadSource(s, src1) == Ok(a) && ReadSource(s, src2) == Ok(b)
    ensures var r := DoAluSpecial(s, ALU_IMUL, dst, src1, src2, flags);
            && r.Ok? && r.value == s.(regs := r.value.regs)
            && ReadSource(r.value, dst) == Ok(Reduced(SignedOf(a, dst.size) * SignedOf(b, dst.size), dst.size))
            && forall q :: 0 <= q < 8 && q != (if dst.size == Sz8 then dst.id % 4 else dst.id) ==>
              r.value.regs[q] == s.regs[q]
  {
    hide ReadSource, WriteDest, Reduced, SignedAt, HighPart;
    var p := SignedAt(a, OperandBits(dst.size)) * SignedAt(b, OperandBits(dst.size));
    SameSigned(a, dst.size);
    SameSigned(b, dst.size);
    assert s.(eflags := s.eflags) == s;
    RegisterWrite(s, dst, p);
    CarryChain.WriteThenRead(s, dst, p);
  }

  lemma SameSigned(v: u64, size: Size)
    requires FlagSize(size)
    ensures SignedAt(v, OperandBits(size)) == SignedOf(v, size)
  {
  }

  lemma RegisterWrite(s: State, d: Decoded, v: int)
    requires d.kind.DReg? && d.id < 8 && FlagSize(d.size)
    ensures var r := WriteDest(s, d, v);
            && r.Ok? && r.value == s.(regs := r.value.regs)
            && forall q :: 0 <= q < 8 && q != (if d.size == Sz8 then d.id % 4 else d.id) ==>
              r.value.regs[q] == s.regs[q]
  {
    hide PutLow8, PutHigh8, PutLow16;
  }

  /** These are the operands the three opcodes decode to. */
  lemma ImulRows()
    ensures InstructionTable(0x69) == Op(OpAluSpecial, ALU_IMUL, USE_MODRM, RegField(Sz1632), Rm(Sz1632), Imm(Sz1632))
    ensures InstructionTable(0x6B) ==
        Op(OpAluSpecial, ALU_IMUL, USE_MODRM, RegField(Sz1632), Rm(Sz1632), Operand(KSimm, Sz8, 0))
    ensures ExtendedInstructionTable(0xAF) ==
        Op(OpAluSpecial, ALU_IMUL, USE_MODRM, RegField(Sz1632), RegField(Sz1632), Rm(Sz1632))
    ensures !WritesDx(USE_MODRM)
  {
  }
}
