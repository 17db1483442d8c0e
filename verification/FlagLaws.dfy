/** What the flag formulas mean: compare-then-jump decides integer relations, and add/subtract chains with
    carry compute multi-word arithmetic. */
module FlagLaws {
  import opened Words
  import opened I386
  import opened Machine

  /** 2^w for an operand of w bits. */
  function Limit(size: Size): (m: int)
    ensures m > 0 && m % 2 == 0
  {
    match size
    case Sz8 => TWO8
    case Sz16 => TWO16
    case _ => TWO32
  }

  function SignedOf(v: int, size: Size): int
  {
    match size
    case Sz8 => Signed8(v)
    case Sz16 => Signed16(v)
    case _ => Signed32(v)
  }

  predicate InSignedRange(v: int, size: Size) { -Limit(size) / 2 <= v < Limit(size) / 2 }

  predicate Narrow(size: Size) { size.Sz8? || size.Sz16? }

  /** The four conditions that read ZF, SF and OF only. */
  ghost predicate DecidesSigned(s: State, x: int, y: int)
  {
    && (JumpCondition(s, JL) <==> x < y) && (JumpCondition(s, JLE) <==> x <= y)
    && (JumpCondition(s, JG) <==> x > y) && (JumpCondition(s, JGE) <==> x >= y)
    && (JumpCondition(s, JE) <==> x == y) && (JumpCondition(s, JNE) <==> x != y)
  }

  ghost predicate DecidesUnsigned(s: State, x: int, y: int)
  {
    && (JumpCondition(s, JB) <==> x < y) && (JumpCondition(s, JBE) <==> x <= y)
    && (JumpCondition(s, JA) <==> x > y) && (JumpCondition(s, JAE) <==> x >= y)
  }

  ghost predicate DecidesOverflow(s: State, difference: int, size: Size)
  {
    && (JumpCondition(s, JO) <==> !InSignedRange(difference, size))
    && (JumpCondition(s, JNO) <==> InSignedRange(difference, size))
  }

  /** A CMP of two operands that hold `a` and `b`. */
  ghost predicate Compares(s: State, src1: Decoded, src2: Decoded, a: u32, b: u32, t: State)
  {
    && ReadSource(s, src1) == Ok(a) && ReadSource(s, src2) == Ok(b)
    && DoAlu(s, ALU_CMP, Decoded(DNone, 0, Sz8, 0), src1, src2, 0) == Ok(t)
  }

  lemma CompareFlags(s: State, src1: Decoded, src2: Decoded, a: u32, b: u32, t: State)
    requires Compares(s, src1, src2, a, b, t)
    ensures FlagSize(src1.size)
    ensures t == s.(eflags := SubFlags(s.eflags, a, b, Wrap32(a - b), src1.size))
  {
    hide ReadSource, WriteDest, SubFlags;
  }

  /** An operand's bits, its two's complement value and its top bit. */
  function Reduced(v: int, size: Size): int
  {
    match size
    case Sz8 => Wrap8(v)
    case Sz16 => Wrap16(v)
    case _ => Wrap32(v)
  }

  predicate Negative(x: int, size: Size) { x >= Limit(size) / 2 }

  lemma ReducedSign(v: int, size: Size)
    requires FlagSize(size)
    ensures 0 <= Reduced(v, size) < Limit(size)
    ensures SignBit(v, size) <==> Negative(Reduced(v, size), size)
    ensures SignedOf(v, size) == Reduced(v, size) - (if Negative(Reduced(v, size), size) then Limit(size) else 0)
    ensures ZeroBits(v, size) <==> Reduced(v, size) == 0
  {
  }

  lemma ModDifference(a: int, b: int, c: int, m: int)
    requires m > 1 && 0 <= c <= 1
    ensures var d := a % m - b % m - c;
            (a - b - c) % m == if d < 0 then d + m else d
  {
    var d := a % m - b % m - c;
    AddMultiple(d, a / m - b / m, m);
    if d < 0 { DivModUnique(d, -1, d + m, m); } else { DivModUnique(d, 0, d, m); }
  }

  lemma ModSum(a: int, b: int, c: int, m: int)
    requires m > 1 && 0 <= c <= 1
    ensures var d := a % m + b % m + c;
            (a + b + c) % m == if d >= m then d - m else d
  {
    var d := a % m + b % m + c;
    AddMultiple(d, a / m + b / m, m);
    if d >= m { DivModUnique(d, 1, d - m, m); } else { DivModUnique(d, 0, d, m); }
  }

  lemma ReducedIs(v: int, size: Size)
    requires FlagSize(size)
    ensures Reduced(v, size) == v % Limit(size)
  {
  }

  lemma ReducedTwice(v: int, size: Size)
    requires FlagSize(size)
    ensures Reduced(Wrap32(v), size) == Reduced(v, size)
  {
    hide Wrap32, Wrap16, Wrap8;
    NarrowWrap(v);
    WrapSmall(Wrap32(v));
  }

  /** The reduction of a 32-bit difference, and of a 32-bit sum with carry, from the reduced operands. */
  lemma ReducedDifference(a: u32, b: u32, c: nat, size: Size)
    requires FlagSize(size) && c <= 1
    ensures var d := Reduced(a, size) - Reduced(b, size) - c;
            Reduced(Wrap32(a - b - c), size) == if d < 0 then d + Limit(size) else d
  {
    hide Reduced, Wrap32, Limit;
    ReducedTwice(a - b - c, size);
    ReducedIs(a - b - c, size);
    ReducedIs(a, size);
    ReducedIs(b, size);
    ModDifference(a, b, c, Limit(size));
  }

  lemma ReducedSum(a: u32, b: u32, c: nat, size: Size)
    requires FlagSize(size) && c <= 1
    ensures var d := Reduced(a, size) + Reduced(b, size) + c;
            Reduced(Wrap32(a + b + c), size) == if d >= Limit(size) then d - Limit(size) else d
  {
    hide Reduced, Wrap32, Limit;
    ReducedTwice(a + b + c, size);
    ReducedIs(a + b + c, size);
    ReducedIs(a, size);
    ReducedIs(b, size);
    ModSum(a, b, c, Limit(size));
  }

  /** SF != OF means "less", OF means "out of range" and ZF "equal", whatever lies above the operand in `b`. */
  lemma SubSign(a: u32, b: u32, c: nat, r: u32, size: Size)
    requires FlagSize(size) && c <= 1 && r == Wrap32(a - b - c)
    ensures var d := SignedOf(a, size) - SignedOf(b, size) - c;
            && (SignBit(r, size) != OverflowSub(a, b, r, size) <==> d < 0)
            && (OverflowSub(a, b, r, size) <==> !InSignedRange(d, size))
            && (InSignedRange(d, size) ==> SignedOf(r, size) == d)
    ensures c == 0 ==> (ZeroBits(r, size) <==> SignedOf(a, size) == SignedOf(b, size))
  {
    hide SignBit, SignedOf, Reduced, ZeroBits;
    ReducedSign(a, size);
    ReducedSign(b, size);
    ReducedSign(r, size);
    ReducedDifference(a, b, c, size);
  }

  lemma AddSign(a: u32, b: u32, c: nat, r: u32, size: Size)
    requires FlagSize(size) && c <= 1 && r == Wrap32(a + b + c)
    ensures var d := SignedOf(a, size) + SignedOf(b, size) + c;
            && (OverflowAdd(a, b, r, size) <==> !InSignedRange(d, size))
            && (InSignedRange(d, size) ==> SignedOf(r, size) == d)
  {
    hide SignBit, SignedOf, Reduced, ZeroBits;
    ReducedSign(a, size);
    ReducedSign(b, size);
    ReducedSign(r, size);
    ReducedSum(a, b, c, size);
  }

  /** The carry out of a byte or word subtraction, or addition, is the borrow, or carry, of the operands. */
  lemma Borrow(a: u32, b: u32, c: nat, size: Size)
    requires Narrow(size) && c <= 1 && a < Limit(size) && b < Limit(size)
    ensures CarryBit(Wrap32(a - b - c), size) <==> a < b + c
  {
  }

  lemma Carry(a: u32, b: u32, c: nat, size: Size)
    requires Narrow(size) && c <= 1 && a < Limit(size) && b < Limit(size)
    ensures CarryBit(Wrap32(a + b + c), size) <==> a + b + c >= Limit(size)
  {
  }

  lemma SameWhenReduced(a: u32, b: u32, size: Size)
    requires FlagSize(size) && a < Limit(size) && b < Limit(size)
    ensures SignedOf(a, size) == SignedOf(b, size) <==> a == b
  {
    hide SignBit, SignedOf, Reduced, ZeroBits;
    ReducedSign(a, size);
    ReducedSign(b, size);
    ReducedIs(a, size);
    ReducedIs(b, size);
    DivModUnique(a, 0, a, Limit(size));
    DivModUnique(b, 0, b, Limit(size));
  }

  /** CMP then Jcc, byte and word operands: every condition decides its relation. CMP itself changes the flags
      and nothing else. */
  lemma CompareDecides(s: State, src1: Decoded, src2: Decoded, a: u32, b: u32, t: State)
    requires Compares(s, src1, src2, a, b, t)
    requires Narrow(src1.size) && a < Limit(src1.size) && b < Limit(src1.size)
    ensures DecidesUnsigned(t, a, b)
    ensures DecidesSigned(t, SignedOf(a, src1.size), SignedOf(b, src1.size))
    ensures DecidesOverflow(t, SignedOf(a, src1.size) - SignedOf(b, src1.size), src1.size)
    ensures t == s.(eflags := t.eflags)
  {
    hide DoAlu, ReadSource, SignBit, OverflowSub, ZeroBits, CarryBit, OddParity;
    CompareFlags(s, src1, src2, a, b, t);
    SubSign(a, b, 0, Wrap32(a - b), src1.size);
    Borrow(a, b, 0, src1.size);
    SameWhenReduced(a, b, src1.size);
  }

  /** At 32 bits the carry is lost: signed conditions are right, JB never holds and JAE always does, so an
      unsigned condition is right exactly when there is no borrow. */
  lemma CompareDecides32(s: State, src1: Decoded, src2: Decoded, a: u32, b: u32, t: State)
    requires Compares(s, src1, src2, a, b, t)
    requires src1.size == Sz32
    ensures DecidesSigned(t, Signed32(a), Signed32(b))
    ensures DecidesOverflow(t, Signed32(a) - Signed32(b), Sz32)
    ensures !JumpCondition(t, JB) && JumpCondition(t, JAE)
    ensures DecidesUnsigned(t, a, b) <==> a >= b
  {
    hide DoAlu, ReadSource, SignBit, OverflowSub, ZeroBits, OddParity;
    CompareFlags(s, src1, src2, a, b, t);
    SubSign(a, b, 0, Wrap32(a - b), Sz32);
  }

  /** Opcode 0x83 at 16 bits compares with an imm8 sign-extended to 32 bits: signed conditions are right, and
      the carry is right exactly when the immediate is not negative; else it is the complement. */
  lemma CompareWithSignExtended(s: State, src1: Decoded, src2: Decoded, a: u32, imm: u8, t: State)
    requires Compares(s, src1, src2, a, Wrap32(Signed8(imm)), t)
    requires src1.size == Sz16 && a < TWO16
    ensures DecidesSigned(t, Signed16(a), Signed8(imm))
    ensures JumpCondition(t, JB) <==> (a < Wrap16(Signed8(imm))) != (Signed8(imm) < 0)
    ensures DecidesUnsigned(t, a, Wrap16(Signed8(imm))) <==> Signed8(imm) >= 0
  {
    hide DoAlu, ReadSource, SignBit, OverflowSub, ZeroBits, OddParity, CarryBit, Signed8, Signed16, Wrap32;
    var b := Wrap32(Signed8(imm));
    CompareFlags(s, src1, src2, a, b, t);
    SubSign(a, b, 0, Wrap32(a - b), Sz16);
    Signed8Range(imm);
    SignExtendedBorrow(a, Signed8(imm));
  }

  lemma Signed8Range(imm: int)
    ensures -0x80 <= Signed8(imm) < 0x80
  {
  }

  /** A small negative number modulo `m`. */
  lemma WrapNegative(x: int, m: int)
    requires 0 < -x <= m
    ensures x % m == m + x
  {
    DivModUnique(x, -1, m + x, m);
  }

  /** Sign-extending to 32 bits turns the borrow of a negative immediate round. */
  lemma SignExtendedBorrow(a: u32, x: int)
    requires a < TWO16 && -0x80 <= x < 0x80
    ensures CarryBit(Wrap32(a - Wrap32(x)), Sz16) <==> (a < Wrap16(x)) != (x < 0)
    ensures Signed16(Wrap32(x)) == x
    ensures Signed16(a) == x <==> a == Wrap16(x)
  {
    if x < 0 {
      WrapNegative(x, TWO32);
      WrapNegative(x, TWO16);
      AddMultiple(a - x, -1, TWO32);
      assert Wrap32(a - Wrap32(x)) == a - x;
      NarrowWrap(x);
    } else if a < x {
      WrapNegative(a - x, TWO32);
    }
  }

  // ----- The auxiliary carry, and the overflow of INC and DEC -----

  lemma AuxOfSum(x: u32, y: u32, c: nat, z: u32)
    requires c <= 1 && z == Wrap32(x + y + c)
    ensures TestBit(x, 16) != (TestBit(y, 16) != TestBit(z, 16)) <==> x % 16 + y % 16 + c >= 16
  {
    var v := x + y + c;
    AddMultiple(z, v / TWO32 * 0x800_0000, 32);
    ModSum(x, y, c, 32);
    LowNibble(x);
    LowNibble(y);
  }

  lemma AuxOfDifference(x: u32, y: u32, c: nat, z: u32)
    requires c <= 1 && z == Wrap32(x - y - c)
    ensures TestBit(x, 16) != (TestBit(y, 16) != TestBit(z, 16)) <==> x % 16 < y % 16 + c
  {
    var v := x - y - c;
    AddMultiple(z, v / TWO32 * 0x800_0000, 32);
    ModDifference(x, y, c, 32);
    LowNibble(x);
    LowNibble(y);
  }

  lemma LowNibble(x: nat)
    ensures x % 32 == x % 16 + if TestBit(x, 16) then 16 else 0
  {
  }

  /** AF is the carry out of, or the borrow into, the low four bits, carry-in included; PF says that the low byte of the
      result has an even number of ones. */
  lemma AuxAndParity(op: nat, e: Bits32, a: u32, b: u32, size: Size, r: u32, f: Bits32)
    requires AluResult(op, e, a, b, size) == Ok((r, f))
    ensures op == ALU_ADD ==> (f[AUX] <==> a % 16 + b % 16 >= 16)
    ensures op == ALU_ADC ==> (f[AUX] <==> a % 16 + b % 16 + Bit(e[CARRY]) >= 16)
    ensures op == ALU_SUB || op == ALU_CMP ==> (f[AUX] <==> a % 16 < b % 16)
    ensures op == ALU_SBB ==> (f[AUX] <==> a % 16 < b % 16 + Bit(e[CARRY]))
    ensures f[PARITY] <==> Ones(BitsOf(Wrap8(r), 8)) % 2 == 0
  {
    hide TestBit, Wrap32, Wrap8, SignBit, ZeroBits, CarryBit, OverflowAdd, OverflowSub, And32, Or32, Xor32, Ones,
      BitsOf;
    var c := Bit(e[CARRY]);
    if op == ALU_ADD { AuxOfSum(a, b, 0, r); }
    if op == ALU_ADC {
      assert r == Wrap32(a + b + c);
      AuxOfSum(a, b, c, r);
    }
    if op == ALU_SUB || op == ALU_CMP { AuxOfDifference(a, b, 0, r); }
    if op == ALU_SBB { AuxOfDifference(a, b, c, r); }
  }

  /** INC overflows exactly at the largest signed value and DEC at the smallest, and AF is the carry out of, or the
      borrow into, the low four bits. */
  lemma IncDecFlags(s: State, version: nat, dst: Decoded, src1: Decoded, v: u64, t: State)
    requires ReadSource(s, src1) == Ok(v) && v < TWO32 && DoIncDec(s, version, dst, src1) == Ok(t)
    ensures FlagSize(src1.size)
    ensures t.eflags[OVERFLOW] <==> SignedOf(v, src1.size) == if version == ID_INC then Limit(src1.size) / 2 - 1
        else -(Limit(src1.size) / 2)
    ensures t.eflags[AUX] <==> v % 16 == if version == ID_INC then 15 else 0
  {
    hide ReadSource, WriteDest, SignedOf, OverflowAdd, OverflowSub, TestBit, SetSZP, Wrap32;
    WrapSmall(v);
    var size := src1.size;
    OneReduced(size);
    SignedRange(v, size);
    if version == ID_INC {
      AddSign(v, 1, 0, Wrap32(v + 1), size);
      AuxOfSum(v, 1, 0, Wrap32(v + 1));
    } else {
      SubSign(v, 1, 0, Wrap32(v as int - 1), size);
      AuxOfDifference(v, 1, 0, Wrap32(v as int - 1));
    }
  }

  lemma OneReduced(size: Size)
    requires FlagSize(size)
    ensures SignedOf(1, size) == 1
  {
  }

  lemma SignedRange(v: int, size: Size)
    requires FlagSize(size)
    ensures -Limit(size) / 2 <= SignedOf(v, size) < Limit(size) / 2
  {
  }
}
