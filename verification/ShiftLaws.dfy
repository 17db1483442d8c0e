/** SHL and SHR as multiplication and division, and PUSHF and POPF as a round trip of EFLAGS. */
module ShiftLaws {
  import opened Words
  import opened I386
  import opened Machine
  import opened FlagLaws
  import opened Places
  import opened CarryChain
  import opened StackLaws

  // ----- Shifts -----

  lemma {:induction false} ShiftLeftIs(v: nat, n: nat)
    ensures ShiftLeft(v, n) == v * Pow2(n)
  {
    if n > 0 {
      ShiftLeftIs(v, n - 1);
      assert v * (2 * Pow2(n - 1)) == 2 * (v * Pow2(n - 1));
    }
  }

  lemma {:induction false} ShiftRightIs(v: nat, n: nat)
    ensures ShiftRight(v, n) == v / Pow2(n)
  {
    if n > 0 {
      ShiftRightIs(v, n - 1);
      DivTwice(v, Pow2(n - 1));
    }
  }

  lemma DivTwice(v: nat, p: nat)
    requires p > 0
    ensures v / p / 2 == v / (2 * p)
  {
    var (q, r) := (v / p, v % p);
    assert v == q * p + r;
    assert q * p == (q / 2) * (2 * p) + (q % 2) * p;
    DivModUnique(v, q / 2, (q % 2) * p + r, 2 * p);
  }

  lemma LocationReads(s: State, d: Decoded)
    requires Location(d)
    ensures ReadSource(s, d).Ok? && ReadSource(s, d).value < TWO32
    ensures forall v: int :: WriteDest(s, d, v).Ok?
  {
    hide Reg8, Reg16, Read8, Read16, Read32, Write8, Write16, Write32, SetReg8, SetReg16, SetReg32, Linear;
  }

  /** A shift by SHL or SHR comes to an end exactly when its count, truncated to a byte, is below 32; other shifts
      spin. */
  lemma ShiftHalts(s: State, op: nat, d: Decoded, src2: Decoded, n: u64)
    requires Location(d) && ReadSource(s, src2) == Ok(n)
    ensures DoShift(s, op, d, d, src2).Ok? <==> (op == SHL || op == SHR) && Wrap8(n) < 32
  {
    LocationReads(s, d);
    forall e: Bits32 ensures forall v: int :: WriteDest(s.(eflags := e), d, v).Ok? {
      LocationReads(s.(eflags := e), d);
    }
    hide ReadSource, WriteDest, ShiftLeft, ShiftRight, TestBit;
  }

  /** SHL multiplies by a power of two modulo the operand's size. At 8 bits carry is the bit just above the byte; at 16
      and 32 bits no flag changes, and no other flag does in any case. */
  lemma ShlExact(s: State, d: Decoded, src2: Decoded, v: u64, n: u64, t: State)
    requires Location(d) && ReadSource(s, d) == Ok(v) && ReadSource(s, src2) == Ok(n)
        && DoShift(s, SHL, d, d, src2) == Ok(t)
    ensures ReadSource(t, d) == Ok(Reduced(v * Pow2(Wrap8(n)), d.size))
    ensures t.eflags == if d.size == Sz8 then s.eflags[CARRY := v * Pow2(Wrap8(n)) / TWO8 % 2 == 1] else s.eflags
  {
    hide ReadSource, WriteDest, ShiftLeft, Reduced, TestBit, Wrap32, Wrap8, Pow2;
    LocationReads(s, d);
    WrapSmall(v);
    ShiftLeftIs(v, Wrap8(n));
    var x := v * Pow2(Wrap8(n));
    var res := Wrap32(x);
    var e := if d.size == Sz8 then s.eflags[CARRY := TestBit(res, TWO8)] else s.eflags;
    assert WriteDest(s.(eflags := e), d, res) == Ok(t);
    WriteThenRead(s.(eflags := e), d, res);
    ReducedTwice(x, d.size);
    BitAbove(x);
  }

  lemma BitAbove(x: int)
    ensures TestBit(Wrap32(x), TWO8) <==> x / TWO8 % 2 == 1
  {
    AddMultiple(Wrap32(x), x / TWO32 * 0x80_0000, 2 * TWO8);
    assert x == Wrap32(x) + x / TWO32 * 0x80_0000 * (2 * TWO8);
  }

  /** SHR divides by a power of two, rounding down, and changes no flag, carry included. */
  lemma ShrExact(s: State, d: Decoded, src2: Decoded, v: u64, n: u64, t: State)
    requires Location(d) && ReadSource(s, d) == Ok(v) && ReadSource(s, src2) == Ok(n)
        && DoShift(s, SHR, d, d, src2) == Ok(t)
    ensures ReadSource(t, d) == Ok(v / Pow2(Wrap8(n)))
    ensures t.eflags == s.eflags
  {
    hide WriteDest, ShiftRight, Reduced, Wrap32, Wrap8, Pow2;
    OperandBelow(s, d, v);
    WrapSmall(v);
    ShiftRightIs(v, Wrap8(n));
    var res := v / Pow2(Wrap8(n));
    Quotient(v, Pow2(Wrap8(n)));
    hide ReadSource;
    assert WriteDest(s, d, res) == Ok(t);
    WriteThenRead(s, d, res);
    ReducedIs(res, d.size);
    DivModUnique(res, 0, res, Limit(d.size));
  }

  lemma Quotient(v: nat, p: nat)
    requires p > 0
    ensures 0 <= v / p <= v
  {
    if v / p > v {
      assert v == v / p * p + v % p;
      ProductAtLeast(p, v / p);
    }
  }

  lemma OperandBelow(s: State, d: Decoded, v: u64)
    requires Location(d) && ReadSource(s, d) == Ok(v)
    ensures v < Limit(d.size)
  {
    hide Read8, Read16, Read32, Linear, Low8, High8, Low16;
  }

  // ----- EFLAGS on the stack -----

  lemma {:induction false} BitsSplit(q: nat, r: nat, m: nat, n: nat)
    requires r < Pow2(m)
    ensures BitsOf(q * Pow2(m) + r, m + n) == BitsOf(r, m) + BitsOf(q, n)
    decreases m
  {
    if m == 0 {
      assert q * 1 + 0 == q;
    } else {
      var p := Pow2(m - 1);
      assert q * (2 * p) == 2 * (q * p);
      var x := q * Pow2(m) + r;
      DivModUnique(x, q * p + r / 2, r % 2, 2);
      BitsSplit(q, r / 2, m - 1, n);
      assert BitsOf(x, m + n) == [r % 2 == 1] + BitsOf(q * p + r / 2, m - 1 + n);
    }
  }

  lemma Pow2Of16()
    ensures Pow2(16) == TWO16
  {
    assert Pow2(8) == 0x100;
  }

  /** The low and the high half of a word's bits. */
  lemma HalfBits(w: u32)
    ensures ToBits(w) == BitsOf(Low16(w), 16) + BitsOf(w / TWO16, 16)
  {
    Pow2Of16();
    hide Pow2, BitsOf;
    BitsSplit(w / TWO16, Low16(w), 16, 16);
    assert w == w / TWO16 * TWO16 + Low16(w);
  }

  /** POPF at 16 bits takes bits 0 to 15 from the stack and keeps bits 16 to 31; at 32 bits it takes all. */
  lemma PopfExact(s: State)
    ensures OpSize32(s) ==> DoPopf(s).eflags == ToBits(Top(s))
    ensures !OpSize32(s) ==> DoPopf(s).eflags == ToBits(Top(s))[..16] + s.eflags[16..]
    ensures DoPopf(s) == Drop(s).(eflags := DoPopf(s).eflags)
  {
    hide BitsOf, WordOf, Top, ToWord, PutLow16;
    if !OpSize32(s) {
      var (e, w) := (ToWord(s.eflags), Top(s));
      PartialWrites(e, w);
      HalfBits(PutLow16(e, w));
      HalfBits(e);
      HalfBits(w);
      FlagsWord(s.eflags);
    }
  }

  lemma FlagsWord(e: Bits32)
    ensures ToBits(ToWord(e)) == e
  {
    hide Pow2;
    BitsRoundTrip(e);
  }

  /** A 16-bit stack has cut off an upper half that a 32-bit POPF reads as zero. */
  predicate UpperLost(s: State) { OpSize32(s) && !s.segs[SS].use32 && ToWord(s.eflags) >= TWO16 }

  /** PUSHF then POPF restores EFLAGS, and everything but the slot in memory, exactly when no upper half is lost. */
  lemma PushfThenPopf(s: State)
    requires Room(s, 1)
    ensures var t := DoPopf(DoPushf(s));
            && t.regs == s.regs && t.eip == s.eip && SameControl(s, t)
            && SameOutside(s.mem, t.mem, StackTop(s) - StackWidth(s), StackTop(s))
            && (t.eflags == s.eflags <==> !UpperLost(s))
  {
    hide StackTop, Push, Top, Truncated, Wrap32, ToWord, ToBits, PutLow16;
    var w := ToWord(s.eflags);
    var t := Push(s, w);
    PushEffect(s, w);
    DropAfterPush(s, t);
    FlagsWord(s.eflags);
    PoppedFlags(s, w);
    assert OpSize32(t) == OpSize32(s) && t.eflags == s.eflags;
  }

  /** The word that comes back into EFLAGS. */
  lemma PoppedFlags(s: State, w: u32)
    requires w == ToWord(s.eflags)
    ensures var v := if OpSize32(s) then Truncated(s, w) else PutLow16(w, Truncated(s, w));
            ToBits(v) == s.eflags <==> !UpperLost(s)
  {
    hide ToWord, ToBits, OpSize32, PutLow16, Wrap16, Wrap32;
    FlagsWord(s.eflags);
    var v := if OpSize32(s) then Truncated(s, w) else PutLow16(w, Truncated(s, w));
    WrapSmall(w);
    SamePut(w);
    if ToBits(v) == ToBits(w) { SameBits(v, w); }
  }

  lemma SamePut(w: u32)
    ensures PutLow16(w, w) == w && PutLow16(w, Wrap16(w)) == w
    ensures Wrap16(w) == w <==> w < TWO16
  {
  }

  lemma SameBits(v: u32, w: u32)
    requires ToBits(v) == ToBits(w)
    ensures v == w
  {
    Pow2Of32();
    hide Pow2, BitsOf, WordOf;
    WordRoundTrip(v, 32);
    WordRoundTrip(w, 32);
  }
}
