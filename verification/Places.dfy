/** Where operands are, as a programmer sees them: parts of registers and bytes of memory. What an operand is read as
    and what a store leaves are given here by register numbers, segment bases and bytes alone. */
module Places {
  import opened Words
  import opened I386
  import opened Machine
  import opened FlagLaws

  datatype Place = LowByte(r: RegIndex) | HighByte(r: RegIndex) | LowWord(r: RegIndex) | Whole(r: RegIndex)
                 | Cells(at: nat, n: nat)

  /** The register of `n` bytes with number `r`: AL, CL, DL, BL, AH, CH, DH and BH are the bytes. */
  function Register(r: RegIndex, n: nat): Place
  {
    if n == 4 then Whole(r) else if n == 2 then LowWord(r) else if r < 4 then LowByte(r) else HighByte(r - 4)
  }

  /** `n` bytes of a segment; addresses wrap at the size of the bus. */
  function Cell(s: State, g: SegIndex, offset: int, n: nat): Place
  {
    Cells((s.segs[g].base + offset) % Span(s.mem), n)
  }

  predicate IsPlace(m: Memory, p: Place) { p.Cells? ==> p.at < Span(m) && p.n <= 4 }

  /** The number that bytes denote, least significant first, and the bytes of a number. */
  function Number(bytes: seq<u8>): nat { if bytes == [] then 0 else bytes[0] + TWO8 * Number(bytes[1..]) }

  function Digits(v: int, n: nat): (bytes: seq<u8>)
    ensures |bytes| == n
    decreases n
  {
    if n == 0 then [] else [v % TWO8] + Digits(v / TWO8, n - 1)
  }

  function Contents(s: State, p: Place): nat
    requires IsPlace(s.mem, p)
  {
    match p
    case LowByte(r) => s.regs[r] % TWO8
    case HighByte(r) => s.regs[r] / TWO8 % TWO8
    case LowWord(r) => s.regs[r] % TWO16
    case Whole(r) => s.regs[r]
    case Cells(at, n) => Number(s.mem[at..at + n])
  }

  /** A register with `v` in the digit of the given weight and range. */
  function WithPart(x: u32, weight: nat, range: nat, v: int): u32
    requires (weight == 1 && (range == TWO8 || range == TWO16)) || weight == range == TWO8
  {
    PartFits(x, weight, range, v);
    x / (weight * range) * (weight * range) + v % range * weight + x % weight
  }

  lemma PartFits(x: u32, weight: nat, range: nat, v: int)
    requires (weight == 1 && (range == TWO8 || range == TWO16)) || weight == range == TWO8
    ensures 0 <= x / (weight * range) * (weight * range) + v % range * weight + x % weight < TWO32
  {
    if weight == TWO8 {
      assert x / TWO16 < TWO16;
    } else if range == TWO8 {
      assert x / TWO8 < 0x100_0000;
    } else {
      assert x / TWO16 < TWO16;
    }
  }

  /** The state with `v` at the place, and no other change. */
  function Assigned(s: State, p: Place, v: int): State
    requires IsPlace(s.mem, p)
  {
    match p
    case LowByte(r) => s.(regs := s.regs[r := WithPart(s.regs[r], 1, TWO8, v)])
    case HighByte(r) => s.(regs := s.regs[r := WithPart(s.regs[r], TWO8, TWO8, v)])
    case LowWord(r) => s.(regs := s.regs[r := WithPart(s.regs[r], 1, TWO16, v)])
    case Whole(r) => s.(regs := s.regs[r := v % TWO32])
    case Cells(at, n) => s.(mem := s.mem[..at] + Digits(v, n) + s.mem[at + n..])
  }

  /** What fits into the place. */
  function Capacity(p: Place): (m: int)
    ensures m > 0
  {
    match p
    case LowByte(_) => TWO8
    case HighByte(_) => TWO8
    case LowWord(_) => TWO16
    case Whole(_) => TWO32
    case Cells(_, n) => Bytes(n)
  }

  function Bytes(n: nat): (m: int)
    ensures m > 0
  {
    if n == 0 then 1 else TWO8 * Bytes(n - 1)
  }

  // ----- An assigned place holds its value, and the others keep theirs -----

  lemma {:induction false} NumberOfDigits(v: int, n: nat)
    ensures Number(Digits(v, n)) == v % Bytes(n)
    decreases n
  {
    if n > 0 {
      NumberOfDigits(v / TWO8, n - 1);
      assert Digits(v, n)[1..] == Digits(v / TWO8, n - 1);
      DigitsNest(v, Bytes(n - 1));
    }
  }

  lemma DigitsNest(v: int, m: int)
    requires m > 0
    ensures v % TWO8 + TWO8 * (v / TWO8 % m) == v % (TWO8 * m)
  {
    var (d, q, r) := (v % TWO8, v / TWO8 / m, v / TWO8 % m);
    assert v == TWO8 * (q * m + r) + d;
    assert TWO8 * (q * m) == q * (TWO8 * m);
    assert TWO8 * r + d <= TWO8 * (m - 1) + d;
    DivModUnique(v, q, TWO8 * r + d, TWO8 * m);
  }

  predicate Disjoint(p: Place, q: Place)
  {
    match (p, q)
    case (Cells(a, n), Cells(b, k)) => a + n <= b || b + k <= a
    case (Cells(_, _), _) => true
    case (_, Cells(_, _)) => true
    case _ => p.r != q.r || (p.LowByte? && q.HighByte?) || (p.HighByte? && q.LowByte?)
  }

  lemma AssignedHolds(s: State, p: Place, v: int)
    requires IsPlace(s.mem, p)
    ensures Contents(Assigned(s, p, v), p) == v % Capacity(p)
  {
    if p.Cells? {
      var m := Assigned(s, p, v).mem;
      assert m[p.at..p.at + p.n] == Digits(v, p.n);
      NumberOfDigits(v, p.n);
    } else {
      SplitRegister(s.regs[p.r]);
      var x := s.regs[p.r];
      Parts(x / TWO16, x / TWO8 % TWO8, v % TWO8);
      Parts(x / TWO16, v % TWO8, x % TWO8);
      Parts(x / TWO16, v % TWO16 / TWO8, v % TWO8);
      if p.LowWord? { DivModUnique(x / TWO16 * TWO16 + v % TWO16, x / TWO16, v % TWO16, TWO16); }
    }
  }

  lemma AssignedKeeps(s: State, p: Place, v: int, q: Place)
    requires IsPlace(s.mem, p) && IsPlace(s.mem, q) && Disjoint(p, q)
    ensures Contents(Assigned(s, p, v), q) == Contents(s, q)
  {
    if p.Cells? {
      var m := Assigned(s, p, v).mem;
      if q.Cells? { assert m[q.at..q.at + q.n] == s.mem[q.at..q.at + q.n]; }
    } else if !q.Cells? && p.r == q.r {
      var x := s.regs[p.r];
      SplitRegister(x);
      Parts(x / TWO16, x / TWO8 % TWO8, v % TWO8);
      Parts(x / TWO16, v % TWO8, x % TWO8);
    }
  }

  // ----- Operands are places -----

  /** An operand that can be read and written: memory or a general register. */
  predicate Location(d: Decoded) { FlagSize(d.size) && ((d.kind.DReg? && d.id < 8) || d.kind.DMem?) }

  function Width(size: Size): nat
  {
    match size
    case Sz8 => 1
    case Sz16 => 2
    case _ => 4
  }

  function PlaceOf(s: State, d: Decoded): Place
    requires Location(d)
  {
    if d.kind.DReg? then Register(d.id, Width(d.size)) else Cell(s, d.sr, d.id, Width(d.size))
  }

  /** The bus index of a segment's byte. */
  lemma IndexOf(s: State, g: SegIndex, offset: int)
    ensures Translate(s.mem, Linear(s, g, offset)) == (s.segs[g].base + offset) % Span(s.mem)
  {
    var x := s.segs[g].base + offset;
    AddMultiple(Wrap32(x), x / TWO32 * 0x1000, BUS20);
  }

  lemma NumberStep(m: seq<u8>, a: nat, n: nat)
    requires n > 0 && a + n <= |m|
    ensures Number(m[a..a + n]) == m[a] + TWO8 * Number(m[a + 1..a + n])
  {
    assert m[a..a + n][1..] == m[a + 1..a + n];
  }

  lemma ShortNumbers(m: seq<u8>, a: nat)
    requires a + 4 <= |m|
    ensures Number(m[a..a + 1]) == m[a] && Number(m[a..a + 2]) == Bytes16(m[a], m[a + 1])
    ensures Number(m[a..a + 4]) == Bytes32(m[a], m[a + 1], m[a + 2], m[a + 3])
  {
    hide Number;
    assert m[a + 1..a + 1] == m[a + 2..a + 2] == m[a + 4..a + 4] == [];
    assert Number([]) == 0 by { EmptyNumber(); }
    NumberStep(m, a, 1);
    NumberStep(m, a, 2);
    NumberStep(m, a + 1, 1);
    NumberStep(m, a, 4);
    NumberStep(m, a + 1, 3);
    NumberStep(m, a + 2, 2);
    NumberStep(m, a + 3, 1);
  }

  lemma EmptyNumber()
    ensures Number([]) == 0
  {
  }

  /** An operand is read as the contents of its place. */
  lemma ReadsPlace(s: State, d: Decoded)
    requires Location(d)
    ensures IsPlace(s.mem, PlaceOf(s, d)) && ReadSource(s, d) == Ok(Contents(s, PlaceOf(s, d)))
  {
    if d.kind.DMem? {
      MemoryReads(s, d);
    } else {
      RegisterReads(s, d);
    }
    hide PlaceOf, Contents, ReadSource;
  }

  lemma MemoryReads(s: State, d: Decoded)
    requires Location(d) && d.kind.DMem?
    ensures IsPlace(s.mem, PlaceOf(s, d)) && ReadSource(s, d) == Ok(Contents(s, PlaceOf(s, d)))
  {
    hide Wrap32, Number, Bytes16, Bytes32, Linear;
    IndexOf(s, d.sr, d.id);
    ShortNumbers(s.mem, (s.segs[d.sr].base + d.id) % Span(s.mem));
  }

  lemma RegisterReads(s: State, d: Decoded)
    requires Location(d) && d.kind.DReg?
    ensures IsPlace(s.mem, PlaceOf(s, d)) && ReadSource(s, d) == Ok(Contents(s, PlaceOf(s, d)))
  {
  }

  lemma {:induction false} DigitBytes(v: int)
    ensures Digits(v, 1) == [ByteOf(v, 0)] && Digits(v, 2) == [ByteOf(v, 0), ByteOf(v, 1)]
    ensures Digits(v, 4) == [ByteOf(v, 0), ByteOf(v, 1), ByteOf(v, 2), ByteOf(v, 3)]
  {
    var (a, b, c) := (v / TWO8, v / 0x1_0000, v / 0x100_0000);
    assert b == a / TWO8 && c == b / TWO8;
    assert Digits(c, 1) == [c % TWO8];
    assert Digits(b, 2) == [b % TWO8] + Digits(c, 1);
    assert Digits(b, 1) == [b % TWO8];
    assert Digits(a, 3) == [a % TWO8] + Digits(b, 2);
    assert Digits(a, 1) == [a % TWO8];
  }

  lemma StoredCells(s: State, a: nat, v: int, n: nat)
    requires a < Span(s.mem) && (n == 1 || n == 2 || n == 4)
    ensures Store(s.mem, a, v, n) == s.mem[..a] + Digits(v, n) + s.mem[a + n..]
  {
    hide ByteOf, Digits;
    DigitBytes(v);
  }

  /** A store leaves its value at the operand's place, and nothing else changes. */
  lemma WritesPlace(s: State, d: Decoded, v: int)
    requires Location(d)
    ensures IsPlace(s.mem, PlaceOf(s, d)) && WriteDest(s, d, v) == Ok(Assigned(s, PlaceOf(s, d), v))
  {
    if d.kind.DMem? {
      MemoryWritten(s, d, v);
    } else {
      RegisterWritten(s, d, v);
    }
    hide PlaceOf, WriteDest, Assigned, IsPlace;
  }

  lemma MemoryWritten(s: State, d: Decoded, v: int)
    requires Location(d) && d.kind.DMem?
    ensures IsPlace(s.mem, PlaceOf(s, d)) && WriteDest(s, d, v) == Ok(Assigned(s, PlaceOf(s, d), v))
  {
    hide Wrap32, Digits, Store, Linear;
    IndexOf(s, d.sr, d.id);
    StoredCells(s, (s.segs[d.sr].base + d.id) % Span(s.mem), v, Width(d.size));
  }

  lemma PartsWritten(x: u32, v: int)
    ensures PutLow8(x, v) == WithPart(x, 1, TWO8, v) && PutHigh8(x, v) == WithPart(x, TWO8, TWO8, v)
    ensures PutLow16(x, v) == WithPart(x, 1, TWO16, v)
  {
    SplitRegister(x);
    assert x == x / TWO8 * TWO8 + x % TWO8 && x == x / TWO16 * TWO16 + x % TWO16;
  }

  lemma RegisterWritten(s: State, d: Decoded, v: int)
    requires Location(d) && d.kind.DReg?
    ensures IsPlace(s.mem, PlaceOf(s, d)) && WriteDest(s, d, v) == Ok(Assigned(s, PlaceOf(s, d), v))
  {
    hide PutLow8, PutHigh8, PutLow16, WithPart;
    PartsWritten(s.regs[d.id], v);
    if d.id >= 4 { PartsWritten(s.regs[d.id - 4], v); }
  }

  lemma Below(s: State, d: Decoded)
    requires Location(d)
    ensures IsPlace(s.mem, PlaceOf(s, d)) && Contents(s, PlaceOf(s, d)) < Limit(d.size) <= TWO32
  {
    ReadsPlace(s, d);
    hide PlaceOf, Contents, Read16, Read32, Low8, High8, Low16, Linear;
  }

  /** Reading and assigning look at registers, bases and memory alone. */
  lemma SamePlaces(s: State, t: State, p: Place, v: int)
    requires s.regs == t.regs && s.mem == t.mem && IsPlace(s.mem, p)
    ensures Contents(s, p) == Contents(t, p)
    ensures Assigned(s, p, v) == s.(regs := Assigned(t, p, v).regs, mem := Assigned(t, p, v).mem)
  {
    hide Digits;
  }

  // ----- Only the value's low 32 bits matter -----

  lemma {:induction false} SameDigits(v: int, k: int, n: nat)
    ensures Digits(v + k * Bytes(n), n) == Digits(v, n)
    decreases n
  {
    if n > 0 {
      var b := Bytes(n - 1);
      assert k * (TWO8 * b) == (k * b) * TWO8;
      AddMultiple(v, k * b, TWO8);
      DivModUnique(v + (k * b) * TWO8, v / TWO8 + k * b, v % TWO8, TWO8);
      SameDigits(v / TWO8, k, n - 1);
    }
  }

  lemma ShortPowers()
    ensures Bytes(1) == TWO8 && Bytes(2) == TWO16 && Bytes(3) == 0x100_0000 && Bytes(4) == TWO32
  {
    assert Bytes(0) == 1;
  }

  lemma AssignedWrapped(s: State, p: Place, v: int)
    requires IsPlace(s.mem, p)
    ensures Assigned(s, p, Wrap32(v)) == Assigned(s, p, v)
  {
    hide Digits;
    NarrowWrap(v);
    WrapSmall(Wrap32(v));
    if p.Cells? {
      ShortPowers();
      var q := v / TWO32;
      SameDigits(Wrap32(v), q * (if p.n == 0 then TWO32 else if p.n == 1 then 0x100_0000 else if p.n == 2 then TWO16
                                 else if p.n == 3 then TWO8 else 1), p.n);
      assert v == Wrap32(v) + q * TWO32;
    }
  }

  /** The flags have no part in it. */
  lemma AssignedFlags(s: State, p: Place, v: int, f: Bits32)
    requires IsPlace(s.mem, p)
    ensures Assigned(s.(eflags := f), p, v) == Assigned(s, p, v).(eflags := f)
  {
    hide Digits;
  }
}
