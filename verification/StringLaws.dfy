/** Repeated string instructions: what REP MOVS leaves in memory, overlapping or not, in either direction, and
    where REPE CMPSB stops. */
module StringLaws {
  import opened Words
  import opened I386
  import opened Machine

  predicate ElementSize(sz: nat) { sz == 1 || sz == 2 || sz == 4 }

  /** `n` elements of `sz` bytes. */
  function Total(n: nat, sz: nat): nat
    requires ElementSize(sz)
  {
    if sz == 1 then n else if sz == 2 then 2 * n else 4 * n
  }

  /** The byte `j` places from `origin` in the direction of movement. */
  function Along(origin: int, j: int, up: bool): int { if up then origin + j else origin - j }

  /** How far the destination is ahead of the source, in the direction of movement. */
  function Gap(dst: int, src: int, up: bool): int { if up then dst - src else src - dst }

  /** Which source byte the j-th destination byte receives when elements of `sz` bytes are moved one after the other:
      byte j itself, unless that byte is itself a destination, `gap` places back, that an earlier element has written;
      then what that one received. An element is read whole before it is written. */
  function SourceOffset(j: nat, gap: int, sz: nat): (o: nat)
    requires sz > 0
    ensures o <= j
  {
    if gap > 0 && j % sz < gap <= j then SourceOffset(j - gap, gap, sz) else j
  }

  /** The byte of the old memory that ends up at index `i` when `len` bytes move from `src` on to `dst` on. */
  function SourceIndex(i: int, dst: int, src: int, up: bool, len: nat, sz: nat): int
    requires sz > 0
  {
    var j := if up then i - dst else dst - i;
    if 0 <= j < len then Along(src, SourceOffset(j, Gap(dst, src, up), sz), up) else i
  }

  ghost predicate Moved(before: seq<u8>, after: seq<u8>, dst: int, src: int, up: bool, len: nat, sz: nat)
    requires sz > 0
  {
    && |after| == |before|
    && forall i :: 0 <= i < |after| ==>
         var k := SourceIndex(i, dst, src, up, len, sz);
         0 <= k < |before| && after[i] == before[k]
  }

  lemma WordBytes(b0: u8, b1: u8, b2: u8, b3: u8)
    ensures ByteOf(b0, 0) == b0
    ensures var w := Bytes16(b0, b1); ByteOf(w, 0) == b0 && ByteOf(w, 1) == b1
    ensures var w := Bytes32(b0, b1, b2, b3);
            ByteOf(w, 0) == b0 && ByteOf(w, 1) == b1 && ByteOf(w, 2) == b2 && ByteOf(w, 3) == b3
  {
    Parts(b3 * TWO8 + b2, b1, b0);
    Parts(0, b3, b2);
  }

  /** Where the first element's bytes begin, seen in the direction of movement. */
  function Origin(a: int, sz: nat, up: bool): int { if up then a else a + sz - 1 }

  /** One element is a move of its bytes. */
  lemma MovesElement(m: Memory, dst: u32, src: u32, sz: nat, up: bool)
    requires ElementSize(sz) && dst + sz <= Span(m) && src + sz <= Span(m)
    ensures Moved(m, WriteN(m, dst, ReadN(m, src, sz), sz), Origin(dst, sz, up), Origin(src, sz, up), up, sz, sz)
  {
    hide ReadN, WriteN;
    var after := WriteN(m, dst, ReadN(m, src, sz), sz);
    var (o, p) := (Origin(dst, sz, up), Origin(src, sz, up));
    ElementBytes(m, dst, src, sz);
    forall i | 0 <= i < |after|
      ensures 0 <= SourceIndex(i, o, p, up, sz, sz) < |m| && after[i] == m[SourceIndex(i, o, p, up, sz, sz)]
    {
      var j := if up then i - o else o - i;
      FirstOffset(j, Gap(o, p, up), sz);
      var k := SourceIndex(i, o, p, up, sz, sz);
      if 0 <= j < sz {
        assert k == Along(p, j, up) == src + (i - dst);
        assert after[i] == m[src + (i - dst)];
      } else {
        assert k == i;
        assert after[i] == m[i];
      }
    }
  }

  /** The bytes of the first element come straight from the source. */
  lemma FirstOffset(j: int, gap: int, sz: nat)
    requires sz > 0
    ensures 0 <= j < sz ==> SourceOffset(j, gap, sz) == j
  {
    if 0 <= j < sz { DivModUnique(j, 0, j, sz); }
  }

  lemma ElementBytes(m: Memory, dst: u32, src: u32, sz: nat)
    requires ElementSize(sz) && dst + sz <= Span(m) && src + sz <= Span(m)
    ensures var after := WriteN(m, dst, ReadN(m, src, sz), sz);
            && |after| == |m|
            && (forall i :: dst <= i < dst + sz ==> after[i] == m[src + (i - dst)])
            && (forall i :: 0 <= i < |m| && !(dst <= i < dst + sz) ==> after[i] == m[i])
  {
    hide ByteOf, Bytes16, Bytes32, Store;
    WordBytes(m[src], m[src + 1], m[src + 2], m[src + 3]);
    var w := ReadN(m, src, sz);
    forall k: nat | k < sz
      ensures ByteOf(w, k) == m[src + k]
    {
      assert k == 0 || k == 1 || k == 2 || k == 3;
    }
  }

  /** One element on: the offset in the rest of the move, or in the first element if the rest reads from there. */
  lemma {:induction false} OffsetStep(j: nat, gap: int, sz: nat)
    requires sz > 0
    ensures var k := sz + SourceOffset(j, gap, sz) - gap;
            SourceOffset(sz + j, gap, sz) == if gap > 0 && 0 <= k < sz then k else sz + SourceOffset(j, gap, sz)
    decreases j
  {
    hide SourceOffset;
    var r := j % sz;
    DivModUnique(sz + j, j / sz + 1, r, sz);
    OffsetUnfolds(j, gap, sz, r);
    OffsetUnfolds(sz + j, gap, sz, r);
    if gap > 0 && r < gap <= j {
      OffsetStep(j - gap, gap, sz);
      assert sz + j - gap == sz + (j - gap);
    } else if gap > j && gap <= sz + j {
      FirstOffset(sz + j - gap, gap, sz);
    }
  }

  lemma OffsetUnfolds(j: nat, gap: int, sz: nat, r: nat)
    requires sz > 0 && r == j % sz
    ensures r <= j
    ensures SourceOffset(j, gap, sz) == if gap > 0 && r < gap <= j then SourceOffset(j - gap, gap, sz) else j
  {
  }

  /** The first element's move followed by the move of the rest takes each byte from where the move of the
      whole does. */
  lemma SourceComposes(i: int, dst: int, src: int, up: bool, sz: nat, len: nat)
    requires sz > 0
    ensures SourceIndex(SourceIndex(i, Along(dst, sz, up), Along(src, sz, up), up, len, sz), dst, src, up, sz, sz)
         == SourceIndex(i, dst, src, up, sz + len, sz)
  {
    hide SourceOffset;
    var gap := Gap(dst, src, up);
    var j := if up then i - dst else dst - i;
    if j < sz {
      FirstOffset(j, gap, sz);
    } else if j < sz + len {
      var k := sz + SourceOffset(j - sz, gap, sz);
      assert SourceIndex(i, Along(dst, sz, up), Along(src, sz, up), up, len, sz) == Along(src, k, up) ==
        Along(dst, k - gap, up);
      OffsetStep(j - sz, gap, sz);
      FirstOffset(k - gap, gap, sz);
    }
  }

  lemma MoveOneMore(a: seq<u8>, b: seq<u8>, c: seq<u8>, dst: int, src: int, up: bool, sz: nat, len: nat)
    requires sz > 0
    requires Moved(a, b, dst, src, up, sz, sz)
    requires Moved(b, c, Along(dst, sz, up), Along(src, sz, up), up, len, sz)
    ensures Moved(a, c, dst, src, up, sz + len, sz)
  {
    hide SourceIndex, Gap, Along;
    var n := sz + len;
    forall i | 0 <= i < |c|
      ensures 0 <= SourceIndex(i, dst, src, up, n, sz) < |a| && c[i] == a[SourceIndex(i, dst, src, up, n, sz)]
    {
      SourceComposes(i, dst, src, up, sz, len);
      var via := SourceIndex(i, Along(dst, sz, up), Along(src, sz, up), up, len, sz);
      assert c[i] == b[via] && b[via] == a[SourceIndex(via, dst, src, up, sz, sz)];
    }
    MovedBytewise(a, c, dst, src, up, n, sz);
  }

  lemma MovedBytewise(a: seq<u8>, c: seq<u8>, dst: int, src: int, up: bool, len: nat, sz: nat)
    requires sz > 0 && |c| == |a|
    requires forall i :: 0 <= i < |c| ==> var k := SourceIndex(i, dst, src, up, len, sz); 0 <= k < |a| && c[i] == a[k]
    ensures Moved(a, c, dst, src, up, len, sz)
  {
    hide SourceIndex;
  }

  // ----- REP MOVS -----

  predicate Up(s: State) { !s.eflags[DIRECTION] }

  /** The `n` elements from an address lie in the bus without wrapping. */
  predicate InBus(m: Memory, a: u32, n: nat, sz: nat, up: bool)
    requires ElementSize(sz)
  {
    n > 0 ==> if up then a + Total(n, sz) <= Span(m) else a + sz <= Span(m) && Total(n, sz) <= a + sz
  }

  function After(r: u32, n: nat, sz: nat, up: bool): u32
    requires ElementSize(sz)
  {
    Wrap32(if up then r + Total(n, sz) else r - Total(n, sz))
  }

  lemma NextLinear(base: int, r: int, k: int)
    requires 0 <= Wrap32(base + r) + k < TWO32
    ensures Wrap32(base + Wrap32(r + k)) == Wrap32(base + r) + k
  {
    WrapTwice(r + k, base);
    WrapTwice(base + r, k);
  }

  /** An element's step, as a change of address. */
  function Stepped(a: int, sz: nat, up: bool): int { if up then a + sz else a - sz }

  function AfterElement(s: State, sz: nat): State
    requires s.regs[ECX] > 0
  {
    SetReg32(DoMovs(s, sz), ECX, s.regs[ECX] as int - 1)
  }

  lemma RepMovsUnfolds(s: State, flags: nat)
    requires s.regs[ECX] > 0
    ensures DoRepString(s, MOVS, flags, false) == DoRepString(AfterElement(s, StringSize(s, flags)), MOVS, flags, false)
    ensures StringSize(AfterElement(s, StringSize(s, flags)), flags) == StringSize(s, flags)
    ensures AfterElement(s, StringSize(s, flags)).regs[ECX] == s.regs[ECX] - 1
  {
    hide DoMovs, DoCmps, DoScas, DoStos, DoLods;
  }

  /** The registers and addresses after one element. */
  lemma AfterElementAt(s: State, sz: nat)
    requires ElementSize(sz) && s.regs[ECX] > 0
    ensures var (u, up) := (AfterElement(s, sz), Up(s));
            && u == s.(mem := WriteN(s.mem, StringDest(s), ReadN(s.mem, StringSource(s), sz), sz),
                       regs := s.regs[ESI := Advanced(s, ESI, sz)][EDI := Advanced(s, EDI, sz)][ECX := s.regs[ECX] - 1])
            && (0 <= Stepped(StringSource(s), sz, up) < TWO32 ==> StringSource(u) == Stepped(StringSource(s), sz, up))
            && (0 <= Stepped(StringDest(s), sz, up) < TWO32 ==> StringDest(u) == Stepped(StringDest(s), sz, up))
  {
    hide ReadN, WriteN, Wrap32;
    WrapSmall(s.regs[ECX] - 1);
    var k: int := if Up(s) then sz else -(sz as int);
    var (sb, db) := (s.segs[s.sgmtOverride].base, s.segs[ES].base);
    if 0 <= Stepped(StringSource(s), sz, Up(s)) < TWO32 { NextLinear(sb, s.regs[ESI], k); }
    if 0 <= Stepped(StringDest(s), sz, Up(s)) < TWO32 { NextLinear(db, s.regs[EDI], k); }
  }

  /** Both blocks lie in the bus without wrapping. */
  predicate Movable(s: State, sz: nat)
    requires ElementSize(sz)
  {
    var (n, up) := (s.regs[ECX], Up(s));
    InBus(s.mem, StringSource(s), n, sz, up) && InBus(s.mem, StringDest(s), n, sz, up)
  }

  ghost predicate MovedBlock(s: State, t: State, sz: nat)
    requires ElementSize(sz)
  {
    var (n, up) := (s.regs[ECX], Up(s));
    && Moved(s.mem, t.mem, Origin(StringDest(s), sz, up), Origin(StringSource(s), sz, up), up, Total(n, sz), sz)
    && t == s.(mem := t.mem,
      regs := s.regs[ECX := 0][ESI := After(s.regs[ESI], n, sz, up)][EDI := After(s.regs[EDI], n, sz, up)])
  }

  /** What REP MOVS does, whatever the overlap: the move above; ECX counts down to 0; ESI and EDI pass the whole
      block; flags, the other registers and the rest of memory stay. */
  lemma {:induction false} RepMovs(s: State, flags: nat)
    requires Movable(s, StringSize(s, flags))
    ensures DoRepString(s, MOVS, flags, false).Ok?
    ensures MovedBlock(s, DoRepString(s, MOVS, flags, false).value, StringSize(s, flags))
    decreases s.regs[ECX]
  {
    hide DoMovs, AfterElement, WriteN, ReadN, Moved, StringSource, StringDest, Advanced, Movable, MovedBlock;
    var sz := StringSize(s, flags);
    if s.regs[ECX] == 0 {
      NothingMoved(s, sz);
    } else {
      var u := AfterElement(s, sz);
      RepMovsUnfolds(s, flags);
      StillMovable(s, sz);
      RepMovs(u, flags);
      MovedOneMore(s, DoRepString(u, MOVS, flags, false).value, sz);
    }
  }

  lemma NothingMoved(s: State, sz: nat)
    requires ElementSize(sz) && s.regs[ECX] == 0
    ensures MovedBlock(s, s, sz)
  {
    var (esi, edi) := (After(s.regs[ESI], 0, sz, Up(s)), After(s.regs[EDI], 0, sz, Up(s)));
    assert esi == s.regs[ESI] && edi == s.regs[EDI];
    assert s.regs == s.regs[ECX := 0][ESI := esi][EDI := edi];
  }

  lemma StillMovable(s: State, sz: nat)
    requires ElementSize(sz) && s.regs[ECX] > 0 && Movable(s, sz)
    ensures Movable(AfterElement(s, sz), sz)
  {
    hide AfterElement, StringSource, StringDest;
    AfterElementAt(s, sz);
  }

  lemma AfterOneMore(r: u32, n: nat, sz: nat, up: bool)
    requires ElementSize(sz) && n > 0
    ensures After(Wrap32(if up then r + sz else r - sz), n - 1, sz, up) == After(r, n, sz, up)
  {
    var k: int := if up then sz else -(sz as int);
    var l: int := if up then Total(n - 1, sz) else -(Total(n - 1, sz) as int);
    WrapTwice(r + k, l);
  }

  lemma MovedOneMore(s: State, t: State, sz: nat)
    requires ElementSize(sz) && s.regs[ECX] > 0 && Movable(s, sz)
    requires MovedBlock(AfterElement(s, sz), t, sz)
    ensures MovedBlock(s, t, sz)
  {
    hide AfterElement, StringSource, StringDest, WriteN, ReadN, Moved, After, Linear;
    var (u, n, up) := (AfterElement(s, sz), s.regs[ECX], Up(s));
    AfterElementAt(s, sz);
    AfterOneMore(s.regs[ESI], n, sz, up);
    AfterOneMore(s.regs[EDI], n, sz, up);
    MovesElement(s.mem, StringDest(s), StringSource(s), sz, up);
    var (o, p) := (Origin(StringDest(s), sz, up), Origin(StringSource(s), sz, up));
    assert Moved(u.mem, t.mem, Along(o, sz, up), Along(p, sz, up), up, Total(n - 1, sz), sz) by {
      if n == 1 {
        NoMove(u.mem, t.mem, Origin(StringDest(u), sz, up), Origin(StringSource(u), sz, up), up, Along(o, sz, up),
          Along(p, sz, up), sz);
      }
    }
    MoveOneMore(s.mem, u.mem, t.mem, o, p, up, sz, Total(n - 1, sz));
    assert t.regs == s.regs[ECX := 0][ESI := After(s.regs[ESI], n, sz, up)][EDI := After(s.regs[EDI], n, sz, up)];
  }

  /** A move of no bytes changes nothing, wherever it starts. */
  lemma NoMove(a: seq<u8>, b: seq<u8>, dst: int, src: int, up: bool, dst': int, src': int, sz: nat)
    requires sz > 0 && Moved(a, b, dst, src, up, 0, sz)
    ensures Moved(a, b, dst', src', up, 0, sz)
  {
  }

  /** Where a block of `len` bytes begins in memory when the move starts at `a`. */
  function LowEnd(a: int, len: nat, up: bool): int { if up then a else a - len + 1 }

  lemma FarOffset(j: nat, gap: int, sz: nat)
    requires sz > 0 && (gap <= 0 || gap > j)
    ensures SourceOffset(j, gap, sz) == j
  {
  }

  /** Seen as memory, in either direction: a destination that is not ahead of the source, or wholly ahead of it,
      receives the old source. */
  lemma MovesLikeMemmove(before: seq<u8>, after: seq<u8>, dst: int, src: int, up: bool, len: nat, sz: nat)
    requires sz > 0 && Moved(before, after, dst, src, up, len, sz)
    requires 0 <= LowEnd(dst, len, up) && LowEnd(dst, len, up) + len <= |before|
    requires 0 <= LowEnd(src, len, up) && LowEnd(src, len, up) + len <= |before|
    requires Gap(dst, src, up) <= 0 || Gap(dst, src, up) >= len
    ensures var (d, s) := (LowEnd(dst, len, up), LowEnd(src, len, up));
            after == before[..d] + before[s..s + len] + before[d + len..]
  {
    hide SourceOffset;
    var (d, s) := (LowEnd(dst, len, up), LowEnd(src, len, up));
    forall i | 0 <= i < |after|
      ensures after[i] == (before[..d] + before[s..s + len] + before[d + len..])[i]
    {
      var j := if up then i - dst else dst - i;
      if 0 <= j < len { FarOffset(j, Gap(dst, src, up), sz); }
      assert SourceIndex(i, dst, src, up, len, sz) == if d <= i < d + len then s + (i - d) else i;
    }
  }

  lemma {:induction false} PatternOffset(j: nat, d: nat, sz: nat)
    requires 0 < sz <= d
    ensures SourceOffset(j, d, sz) == j % d
    decreases j
  {
    if j < d {
      DivModUnique(j, 0, j, d);
    } else {
      PatternOffset(j - d, d, sz);
      DivModUnique(j, (j - d) / d + 1, (j - d) % d, d);
    }
  }

  /** A destination `d` bytes ahead of the source, closer than the block is long and at least one element, repeats the
      first `d` bytes, in either direction. */
  lemma MovesPattern(before: seq<u8>, after: seq<u8>, dst: int, src: int, up: bool, d: nat, len: nat, sz: nat, i: nat)
    requires 0 < sz <= d && d == Gap(dst, src, up) && Moved(before, after, dst, src, up, len, sz)
    requires 0 <= LowEnd(dst, len, up) && LowEnd(dst, len, up) + len <= |before| && i < len
    ensures 0 <= Along(dst, i, up) < |after| && 0 <= Along(src, i % d, up) < |before|
    ensures after[Along(dst, i, up)] == before[Along(src, i % d, up)]
  {
    PatternOffset(i, d, sz);
    assert SourceIndex(Along(dst, i, up), dst, src, up, len, sz) == Along(src, i % d, up);
  }

  // ----- REP STOS -----

  /** Where the block of `n` elements begins in memory when the first is at `a`. */
  function BlockStart(a: int, n: nat, sz: nat, up: bool): int
    requires ElementSize(sz)
  {
    if up then a else a + sz - Total(n, sz)
  }

  ghost predicate Filled(before: seq<u8>, after: seq<u8>, dst: int, n: nat, sz: nat, up: bool, v: u32)
    requires ElementSize(sz)
  {
    var lo := BlockStart(dst, n, sz, up);
    && |after| == |before|
    && forall i :: 0 <= i < |after| ==> after[i] == if lo <= i < lo + Total(n, sz) then ByteOf(v, (i - dst) % sz)
      else before[i]
  }

  function AfterStore(s: State, sz: nat): State
    requires s.regs[ECX] > 0
  {
    SetReg32(DoStos(s, sz), ECX, s.regs[ECX] as int - 1)
  }

  lemma RepStosUnfolds(s: State, flags: nat)
    requires s.regs[ECX] > 0
    ensures DoRepString(s, STOS, flags, false) == DoRepString(AfterStore(s, StringSize(s, flags)), STOS, flags, false)
    ensures StringSize(AfterStore(s, StringSize(s, flags)), flags) == StringSize(s, flags)
    ensures AfterStore(s, StringSize(s, flags)).regs[ECX] == s.regs[ECX] - 1
  {
    hide DoMovs, DoCmps, DoScas, DoStos, DoLods;
  }

  lemma AfterStoreAt(s: State, sz: nat)
    requires ElementSize(sz) && s.regs[ECX] > 0
    ensures var (u, up) := (AfterStore(s, sz), Up(s));
            && u == s.(mem := WriteN(s.mem, StringDest(s), s.regs[EAX], sz),
                       regs := s.regs[EDI := Advanced(s, EDI, sz)][ECX := s.regs[ECX] - 1])
            && (0 <= Stepped(StringDest(s), sz, up) < TWO32 ==> StringDest(u) == Stepped(StringDest(s), sz, up))
  {
    hide WriteN, Wrap32;
    WrapSmall(s.regs[ECX] - 1);
    var k: int := if Up(s) then sz else -(sz as int);
    if 0 <= Stepped(StringDest(s), sz, Up(s)) < TWO32 { NextLinear(s.segs[ES].base, s.regs[EDI], k); }
  }

  ghost predicate FilledBlock(s: State, t: State, sz: nat)
    requires ElementSize(sz)
  {
    var (n, up) := (s.regs[ECX], Up(s));
    && Filled(s.mem, t.mem, StringDest(s), n, sz, up, s.regs[EAX])
    && t == s.(mem := t.mem, regs := s.regs[ECX := 0][EDI := After(s.regs[EDI], n, sz, up)])
  }

  /** REP STOS fills the block with EAX, element by element and in either direction; ECX counts down to 0, EDI passes
      the block, and nothing else changes. */
  lemma {:induction false} RepStos(s: State, flags: nat)
    requires InBus(s.mem, StringDest(s), s.regs[ECX], StringSize(s, flags), Up(s))
    ensures DoRepString(s, STOS, flags, false).Ok?
    ensures FilledBlock(s, DoRepString(s, STOS, flags, false).value, StringSize(s, flags))
    decreases s.regs[ECX]
  {
    hide DoStos, AfterStore, WriteN, Filled, StringDest, Advanced, FilledBlock;
    var sz := StringSize(s, flags);
    if s.regs[ECX] == 0 {
      NothingFilled(s, sz);
    } else {
      var u := AfterStore(s, sz);
      RepStosUnfolds(s, flags);
      AfterStoreAt(s, sz);
      InBusBehind(s.mem, StringDest(s), StringDest(u), s.regs[ECX], sz, Up(s));
      RepStos(u, flags);
      FilledOneMore(s, DoRepString(u, STOS, flags, false).value, sz);
    }
  }

  lemma InBusBehind(m: Memory, a: u32, next: u32, n: nat, sz: nat, up: bool)
    requires ElementSize(sz) && n > 0 && InBus(m, a, n, sz, up)
    requires 0 <= Stepped(a, sz, up) < TWO32 ==> next == Stepped(a, sz, up)
    ensures forall b: Memory :: |b| == |m| ==> InBus(b, next, n - 1, sz, up)
  {
  }

  lemma NothingFilled(s: State, sz: nat)
    requires ElementSize(sz) && s.regs[ECX] == 0
    ensures FilledBlock(s, s, sz)
  {
    var edi := After(s.regs[EDI], 0, sz, Up(s));
    assert edi == s.regs[EDI];
    assert s.regs == s.regs[ECX := 0][EDI := edi];
  }

  lemma FilledOneMore(s: State, t: State, sz: nat)
    requires ElementSize(sz) && s.regs[ECX] > 0 && InBus(s.mem, StringDest(s), s.regs[ECX], sz, Up(s))
    requires FilledBlock(AfterStore(s, sz), t, sz)
    ensures FilledBlock(s, t, sz)
  {
    hide AfterStore, StringDest, WriteN, After, Linear, Filled;
    var (u, n, up) := (AfterStore(s, sz), s.regs[ECX], Up(s));
    AfterStoreAt(s, sz);
    AfterOneMore(s.regs[EDI], n, sz, up);
    FillOneMore(s.mem, u.mem, t.mem, StringDest(s), StringDest(u), n, sz, up, s.regs[EAX]);
    assert t.regs == s.regs[ECX := 0][EDI := After(s.regs[EDI], n, sz, up)];
  }

  lemma FillOneMore(m: Memory, b: seq<u8>, c: seq<u8>, dst: u32, next: u32, n: nat, sz: nat, up: bool, v: u32)
    requires ElementSize(sz) && n > 0 && InBus(m, dst, n, sz, up) && b == WriteN(m, dst, v, sz)
    requires n > 1 ==> next == Stepped(dst, sz, up)
    requires Filled(b, c, next, n - 1, sz, up, v)
    ensures Filled(m, c, dst, n, sz, up, v)
  {
    var lo := BlockStart(dst, n, sz, up);
    forall i | 0 <= i < |c| ensures c[i] == if lo <= i < lo + Total(n, sz) then ByteOf(v, (i - dst) % sz) else m[i] {
      SamePlaceInElement(i, dst, sz, up);
    }
  }

  lemma SamePlaceInElement(i: int, dst: int, sz: nat, up: bool)
    requires ElementSize(sz)
    ensures (i - Stepped(dst, sz, up)) % sz == (i - dst) % sz
    ensures dst <= i < dst + sz ==> (i - dst) % sz == i - dst
  {
  }

  // ----- REPE CMPSB -----

  /** The bytes `k` places on in the two strings compared. */
  function SourceByte(s: State, k: nat): u8 { Read8(s.mem, Wrap32(Along(StringSource(s), k, Up(s)))) }
  function DestByte(s: State, k: nat): u8 { Read8(s.mem, Wrap32(Along(StringDest(s), k, Up(s)))) }

  /** Whether the comparison of the bytes `k` places on lets the repetition go on. */
  predicate GoesOn(s: State, k: nat, repne: bool) { (SourceByte(s, k) == DestByte(s, k)) != repne }

  /** The state after `k` byte comparisons, the last of which left ZF as given. */
  function Compared(s: State, k: nat, zf: bool): State
    requires 0 < k <= s.regs[ECX]
  {
    s.(eflags := s.eflags[ZERO := zf],
       regs := s.regs[ECX := s.regs[ECX] - k][ESI := After(s.regs[ESI], k, 1, Up(s))]
                     [EDI := After(s.regs[EDI], k, 1, Up(s))])
  }

  lemma CompareElement(s: State)
    requires s.regs[ECX] > 0
    ensures var t := DoCmps(s, 1);
            SetReg32(t, ECX, t.regs[ECX] as int - 1) == Compared(s, 1, SourceByte(s, 0) == DestByte(s, 0))
  {
    hide Read8, Read16, Read32, Wrap32;
    WrapSmall(s.regs[ECX] - 1);
    WrapSmall(StringSource(s));
    WrapSmall(StringDest(s));
    assert ZeroBits(SourceByte(s, 0) - DestByte(s, 0), Sz8) == (SourceByte(s, 0) == DestByte(s, 0));
    var (t, u) := (DoCmps(s, 1), Compared(s, 1, SourceByte(s, 0) == DestByte(s, 0)));
    assert SetReg32(t, ECX, t.regs[ECX] as int - 1).regs == u.regs;
  }

  lemma CmpsbUnfolds(s: State, repne: bool)
    requires s.regs[ECX] > 0
    ensures var u := Compared(s, 1, SourceByte(s, 0) == DestByte(s, 0));
            DoRepString(s, CMPS, STR_SZ_8, repne) ==
              if GoesOn(s, 0, repne) then DoRepString(u, CMPS, STR_SZ_8, repne) else Ok(u)
  {
    hide DoMovs, DoStos, DoLods, DoScas, DoCmps, SourceByte, DestByte;
    CompareElement(s);
    assert DoString(s, CMPS, STR_SZ_8) == Ok(DoCmps(s, 1));
  }

  /** The strings one place on. */
  lemma NextBytes(s: State, j: nat, zf: bool)
    requires s.regs[ECX] > 0
    ensures SourceByte(Compared(s, 1, zf), j) == SourceByte(s, j + 1)
    ensures DestByte(Compared(s, 1, zf), j) == DestByte(s, j + 1)
  {
    hide Read8;
    NextPlace(s.segs[s.sgmtOverride].base, s.regs[ESI], j, Up(s));
    NextPlace(s.segs[ES].base, s.regs[EDI], j, Up(s));
  }

  lemma NextPlace(base: u32, r: u32, j: nat, up: bool)
    ensures Wrap32(Along(Wrap32(base + After(r, 1, 1, up)), j, up)) == Wrap32(Along(Wrap32(base + r), j + 1, up))
  {
    hide Wrap32;
    var k: int := if up then 1 else -1;
    var l: int := if up then j else -(j as int);
    WrapTwice(r + k, base);
    WrapTwice(base + r + k, l);
    WrapTwice(base + r, k + l);
    assert r + k + base == base + r + k && base + r + k + l == base + r + (k + l);
  }

  lemma ComparedTwice(s: State, k: nat, first: bool, zf: bool)
    requires 0 < k < s.regs[ECX]
    ensures Compared(Compared(s, 1, first), k, zf) == Compared(s, k + 1, zf)
  {
    hide After;
    AfterOneByte(s.regs[ESI], k, Up(s));
    AfterOneByte(s.regs[EDI], k, Up(s));
    assert Compared(Compared(s, 1, first), k, zf).regs == Compared(s, k + 1, zf).regs;
  }

  lemma AfterOneByte(r: u32, k: nat, up: bool)
    ensures After(After(r, 1, 1, up), k, 1, up) == After(r, k + 1, 1, up)
  {
    AfterOneMore(r, k + 1, 1, up);
  }

  /** REPE CMPSB stops after the first pair of bytes that differ, with ZF clear, or after the whole count with ZF set;
      REPNE CMPSB stops after the first equal pair, with ZF set, or after the whole count with ZF clear. A count of zero
      changes nothing. `k` is the number of leading pairs that let it go on. */
  lemma {:induction false} RepCmpsb(s: State, k: nat, repne: bool)
    requires k <= s.regs[ECX] && forall j :: 0 <= j < k ==> GoesOn(s, j, repne)
    requires k < s.regs[ECX] ==> !GoesOn(s, k, repne)
    ensures DoRepString(s, CMPS, STR_SZ_8, repne)
         == Ok(if s.regs[ECX] == 0 then s
               else if k == s.regs[ECX] then Compared(s, k, !repne)
               else Compared(s, k + 1, repne))
    decreases k
  {
    hide SourceByte, DestByte, DoString;
    if s.regs[ECX] > 0 {
      CmpsbUnfolds(s, repne);
      if k > 0 {
        assert GoesOn(s, 0, repne);
        var u := Compared(s, 1, !repne);
        forall j: nat | j < k - 1 ensures GoesOn(u, j, repne) {
          NextBytes(s, j, !repne);
          assert GoesOn(s, j + 1, repne);
        }
        NextBytes(s, k - 1, !repne);
        hide DoRepString;
        RepCmpsb(u, k - 1, repne);
        if k < s.regs[ECX] { ComparedTwice(s, k, !repne, repne); }
        if 1 < k == s.regs[ECX] { ComparedTwice(s, k - 1, !repne, !repne); }
      }
    }
  }

  // ----- REP SCASB -----

  /** Whether the byte `k` places on lets the scan go on: it is compared with all of EAX. */
  predicate ScansOn(s: State, k: nat, repne: bool) { (DestByte(s, k) == s.regs[EAX]) != repne }

  function Scanned(s: State, k: nat, zf: bool): State
    requires 0 < k <= s.regs[ECX]
  {
    s.(eflags := s.eflags[ZERO := zf],
       regs := s.regs[ECX := s.regs[ECX] - k][EDI := After(s.regs[EDI], k, 1, Up(s))])
  }

  lemma ScanElement(s: State)
    requires s.regs[ECX] > 0
    ensures var t := DoScas(s, STR_SZ_8, 1);
            SetReg32(t, ECX, t.regs[ECX] as int - 1) == Scanned(s, 1, DestByte(s, 0) == s.regs[EAX])
  {
    hide Read8, Read16, Read32, Linear;
    WrapSmall(s.regs[ECX] - 1);
    WrapSmall(StringDest(s));
    var v := Read8(s.mem, StringDest(s));
    ZeroDifference(s.regs[EAX], v);
    var (t, u) := (DoScas(s, STR_SZ_8, 1), Scanned(s, 1, DestByte(s, 0) == s.regs[EAX]));
    assert SetReg32(t, ECX, t.regs[ECX] as int - 1).regs == u.regs;
  }

  lemma ZeroDifference(x: u32, y: u32)
    ensures ZeroBits(x as int - y, Sz32) <==> y == x
  {
  }

  lemma ScasbUnfolds(s: State, repne: bool)
    requires s.regs[ECX] > 0
    ensures var u := Scanned(s, 1, DestByte(s, 0) == s.regs[EAX]);
            DoRepString(s, SCAS, STR_SZ_8, repne) ==
              if ScansOn(s, 0, repne) then DoRepString(u, SCAS, STR_SZ_8, repne) else Ok(u)
  {
    hide DoMovs, DoStos, DoLods, DoScas, DoCmps, DestByte;
    ScanElement(s);
    assert DoString(s, SCAS, STR_SZ_8) == Ok(DoScas(s, STR_SZ_8, 1));
  }

  lemma NextScanned(s: State, j: nat, zf: bool)
    requires s.regs[ECX] > 0
    ensures DestByte(Scanned(s, 1, zf), j) == DestByte(s, j + 1) && Scanned(s, 1, zf).regs[EAX] == s.regs[EAX]
  {
    hide Read8;
    NextPlace(s.segs[ES].base, s.regs[EDI], j, Up(s));
  }

  lemma ScannedTwice(s: State, k: nat, first: bool, zf: bool)
    requires 0 < k < s.regs[ECX]
    ensures Scanned(Scanned(s, 1, first), k, zf) == Scanned(s, k + 1, zf)
  {
    hide After;
    AfterOneByte(s.regs[EDI], k, Up(s));
    assert Scanned(Scanned(s, 1, first), k, zf).regs == Scanned(s, k + 1, zf).regs;
  }

  /** REPNE SCASB stops behind the first byte that equals EAX, with ZF set, or after the whole count with ZF clear; REPE
      SCASB behind the first that does not. */
  lemma {:induction false} RepScasb(s: State, k: nat, repne: bool)
    requires k <= s.regs[ECX] && forall j :: 0 <= j < k ==> ScansOn(s, j, repne)
    requires k < s.regs[ECX] ==> !ScansOn(s, k, repne)
    ensures DoRepString(s, SCAS, STR_SZ_8, repne)
         == Ok(if s.regs[ECX] == 0 then s
               else if k == s.regs[ECX] then Scanned(s, k, !repne)
               else Scanned(s, k + 1, repne))
    decreases k
  {
    hide DestByte, DoString;
    if s.regs[ECX] > 0 {
      ScasbUnfolds(s, repne);
      if k > 0 {
        assert ScansOn(s, 0, repne);
        var u := Scanned(s, 1, !repne);
        forall j: nat | j < k - 1 ensures ScansOn(u, j, repne) {
          NextScanned(s, j, !repne);
          assert ScansOn(s, j + 1, repne);
        }
        NextScanned(s, k - 1, !repne);
        hide DoRepString;
        RepScasb(u, k - 1, repne);
        if k < s.regs[ECX] { ScannedTwice(s, k, !repne, repne); }
        if 1 < k == s.regs[ECX] { ScannedTwice(s, k - 1, !repne, !repne); }
      }
    }
  }

  // ----- REPNE without a comparison -----

  predicate Transfers(subType: nat) { subType == MOVS || subType == STOS || subType == LODS }

  lemma TransferKeepsZero(s: State, subType: nat, flags: nat)
    requires Transfers(subType)
    ensures var r := DoString(s, subType, flags);
            r.Ok? && r.value.eflags == s.eflags && r.value.regs[ECX] == s.regs[ECX]
  {
    hide ReadN, WriteN, Advanced, StringSource, StringDest;
  }

  lemma {:induction false} RepDrains(s: State, subType: nat, flags: nat)
    requires Transfers(subType)
    ensures var r := DoRepString(s, subType, flags, false);
            r.Ok? && r.value.regs[ECX] == 0
    decreases s.regs[ECX]
  {
    hide DoString;
    if s.regs[ECX] > 0 {
      TransferKeepsZero(s, subType, flags);
      WrapSmall(s.regs[ECX] - 1);
      var t := DoString(s, subType, flags).value;
      RepDrains(SetReg32(t, ECX, t.regs[ECX] as int - 1), subType, flags);
    }
  }

  /** REPNE stops on ZF whatever the operation: before MOVS, STOS or LODS it does what REP does if and only if ZF is
      clear or at most one element is left; else it stops behind one element. */
  lemma {:induction false} RepneTransfers(s: State, subType: nat, flags: nat)
    requires Transfers(subType)
    ensures DoRepString(s, subType, flags, true) == DoRepString(s, subType, flags, false) <==>
            !s.eflags[ZERO] || s.regs[ECX] <= 1
    ensures s.eflags[ZERO] && s.regs[ECX] > 0 ==>
              DoRepString(s, subType, flags, true).Ok?
              && DoRepString(s, subType, flags, true).value.regs[ECX] == s.regs[ECX] - 1
    decreases s.regs[ECX]
  {
    hide DoString;
    if s.regs[ECX] > 0 {
      TransferKeepsZero(s, subType, flags);
      WrapSmall(s.regs[ECX] - 1);
      var t := DoString(s, subType, flags).value;
      var u := SetReg32(t, ECX, t.regs[ECX] as int - 1);
      RepneTransfers(u, subType, flags);
      RepDrains(s, subType, flags);
    }
  }
}
