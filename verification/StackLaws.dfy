/** Stack discipline: pushes and pops as a sequence, PUSHA and POPA, nested ENTER and LEAVE. */
module StackLaws {
  import opened Words
  import opened I386
  import opened Machine
  import opened StringLaws
  import opened FlagLaws

  /** The linear address ESP points at. */
  function StackTop(s: State): u32 { Linear(s, SS, s.regs[ESP]) }

  /** `n` slots below ESP lie in the bus without wrapping. */
  predicate Room(s: State, n: nat) { Total(n, StackWidth(s)) <= StackTop(s) <= Span(s.mem) }

  /** A pushed value as it comes back: truncated to the stack width. */
  function Truncated(s: State, v: int): u32 { if s.segs[SS].use32 then Wrap32(v) else Wrap16(v) }

  function SlotAt(s: State, a: u32): u32 { if s.segs[SS].use32 then Read32(s.mem, a) else Read16(s.mem, a) }

  ghost predicate SameOutside(a: seq<u8>, b: seq<u8>, lo: int, hi: int)
  {
    |a| == |b| && forall i :: 0 <= i < |a| && !(lo <= i < hi) ==> a[i] == b[i]
  }

  /** One push: ESP and the top move down by the width, the new slot holds the value, all else stays. */
  lemma PushEffect(s: State, v: int)
    requires Room(s, 1)
    ensures var (t, w) := (Push(s, v), StackWidth(s));
            && StackTop(t) == StackTop(s) - w && SameOutside(s.mem, t.mem, StackTop(t), StackTop(s))
            && Top(t) == Truncated(s, v)
            && t == s.(mem := t.mem, regs := s.regs[ESP := Wrap32(s.regs[ESP] - w)])
  {
    hide Read16, Read32, Write16, Write32, Wrap32, Wrap16;
    NextLinearDown(s, StackWidth(s));
    ReadBack(s.mem, StackTop(Push(s, v)), v);
    WriteFrame(s.mem, StackTop(Push(s, v)), v);
  }

  lemma NextLinearDown(s: State, k: nat)
    requires k <= StackTop(s)
    ensures Linear(s, SS, Wrap32(s.regs[ESP] - k)) == StackTop(s) - k
  {
    NextLinear(s.segs[SS].base, s.regs[ESP], -(k as int));
  }

  lemma WriteFrame(m: Memory, a: u32, v: int)
    ensures a + 2 <= Span(m) ==> SameOutside(m, Write16(m, a, v), a, a + 2)
    ensures a + 4 <= Span(m) ==> SameOutside(m, Write32(m, a, v), a, a + 4)
  {
    hide ByteOf;
  }

  lemma SlotFrame(s: State, t: State, a: u32, lo: int, hi: int)
    requires s.segs == t.segs && SameOutside(s.mem, t.mem, lo, hi)
    requires a + StackWidth(s) <= Span(s.mem) && (a + StackWidth(s) <= lo || hi <= a)
    ensures SlotAt(t, a) == SlotAt(s, a)
  {
    hide Bytes16, Bytes32;
  }

  // ----- Pushes then pops -----

  function Pops(s: State, n: nat): (seq<u32>, State)
    decreases n, s
  {
    if n == 0 then ([], s)
    else
      var (vs, t) := Pops(Drop(s), n - 1);
      ([Top(s)] + vs, t)
  }

  lemma {:induction false} PopsOneMore(s: State, n: nat)
    ensures Pops(s, n + 1) == (Pops(s, n).0 + [Top(Pops(s, n).1)], Drop(Pops(s, n).1))
    decreases n
  {
    hide Top, Drop;
    var (vs, t) := Pops(s, n);
    if n == 0 {
      assert Pops(Drop(s), 0) == ([], Drop(s));
      assert [Top(s)] + [] == [] + [Top(s)];
    } else {
      var (us, u) := Pops(Drop(s), n - 1);
      PopsOneMore(Drop(s), n - 1);
      assert Pops(Drop(s), n) == (us + [Top(u)], Drop(u));
      assert [Top(s)] + (us + [Top(u)]) == vs + [Top(t)];
    }
  }

  /** The values in the order they come back. */
  function Returned(s: State, vs: seq<int>): seq<u32>
  {
    if |vs| == 0 then [] else Returned(s, vs[1..]) + [Truncated(s, vs[0])]
  }

  lemma {:induction false} ReturnedIsReversed(s: State, vs: seq<int>)
    ensures |Returned(s, vs)| == |vs|
    ensures forall k :: 0 <= k < |vs| ==> Returned(s, vs)[k] == Truncated(s, vs[|vs| - 1 - k])
  {
    hide Truncated;
    if |vs| > 0 { ReturnedIsReversed(s, vs[1..]); }
  }

  lemma RoomAfterPush(s: State, v: int, n: nat)
    requires n > 0 && Room(s, n)
    ensures Room(s, 1) && Room(Push(s, v), n - 1) && Push(s, v).segs == s.segs
  {
    hide Push, Top, StackTop;
    assert Room(s, 1);
    PushEffect(s, v);
  }

  /** Where the pushed values lie, and that nothing else in memory changes. */
  ghost predicate PushedAll(s: State, vs: seq<int>)
    requires Room(s, |vs|)
  {
    var (t, w) := (PushAll(s, vs), StackWidth(s));
    var k := Total(|vs|, w);
    && SameOutside(s.mem, t.mem, StackTop(s) - k, StackTop(s))
    && t == s.(mem := t.mem, regs := s.regs[ESP := Wrap32(s.regs[ESP] - k)])
    && StackTop(t) == StackTop(s) - k
    && (forall i {:trigger vs[i]} :: 0 <= i < |vs| ==> SlotAt(t, StackTop(s) - Total(i + 1, w)) == Truncated(s, vs[i]))
  }

  lemma {:induction false} PushAllEffect(s: State, vs: seq<int>)
    requires Room(s, |vs|)
    ensures PushedAll(s, vs)
    decreases vs
  {
    hide StackTop, Push, Top, SlotAt, Truncated, Wrap32;
    if |vs| == 0 {
      WrapSmall(s.regs[ESP]);
      assert s.regs == s.regs[ESP := s.regs[ESP]];
    } else {
      var u := Push(s, vs[0]);
      RoomAfterPush(s, vs[0], |vs|);
      PushEffect(s, vs[0]);
      PushAllEffect(u, vs[1..]);
      PushAllTail(s, vs, u);
    }
  }

  /** The inductive step of `PushAllEffect`, from the state after the first push. */
  lemma PushAllTail(s: State, vs: seq<int>, u: State)
    requires |vs| > 0 && Room(s, |vs|) && u == Push(s, vs[0]) && u.segs == s.segs
    requires StackTop(u) == StackTop(s) - StackWidth(s) && SameOutside(s.mem, u.mem, StackTop(u), StackTop(s))
    requires Top(u) == Truncated(s, vs[0])
    requires u == s.(mem := u.mem, regs := s.regs[ESP := Wrap32(s.regs[ESP] - StackWidth(s))])
    requires PushedAll(u, vs[1..])
    ensures PushedAll(s, vs)
  {
    hide StackTop, Push, SlotAt, Truncated, Wrap32;
    var (t, w) := (PushAll(s, vs), StackWidth(s));
    var k := Total(|vs| - 1, w);
    WrapTwice(s.regs[ESP] - w, -(k as int));
    assert t.regs == s.regs[ESP := Wrap32(s.regs[ESP] - Total(|vs|, w))];
    SlotFrame(u, t, StackTop(u), StackTop(u) - k, StackTop(u));
    TopSlot(u);
    forall i | 0 <= i < |vs|
      ensures SlotAt(t, StackTop(s) - Total(i + 1, w)) == Truncated(s, vs[i])
    {
      if i > 0 {
        assert SlotAt(t, StackTop(u) - Total(i, w)) == Truncated(u, vs[1..][i - 1]);
        assert StackTop(u) - Total(i, w) == StackTop(s) - Total(i + 1, w);
        TruncatedBySegs(s, u, vs[i]);
      }
    }
  }

  lemma TopSlot(s: State)
    ensures Top(s) == SlotAt(s, StackTop(s))
  {
  }

  lemma TruncatedBySegs(s: State, t: State, v: int)
    requires s.segs == t.segs
    ensures Truncated(s, v) == Truncated(t, v)
  {
  }

  /** n pushes then n pops return the values in reverse order, truncated to the stack width, restore ESP and
      change nothing but the memory of the slots. */
  lemma {:induction false} PushesThenPops(s: State, vs: seq<int>)
    requires Room(s, |vs|)
    ensures var t := PushAll(s, vs);
            && Pops(t, |vs|) == (Returned(s, vs), s.(mem := t.mem))
            && SameOutside(s.mem, t.mem, StackTop(s) - Total(|vs|, StackWidth(s)), StackTop(s))
    decreases vs
  {
    hide StackTop, Push, Top, SlotAt, Truncated, Wrap32, Drop;
    PushAllEffect(s, vs);
    if |vs| == 0 {
    } else {
      var u := Push(s, vs[0]);
      RoomAfterPush(s, vs[0], |vs|);
      PushEffect(s, vs[0]);
      PushesThenPops(u, vs[1..]);
      PushAllEffect(u, vs[1..]);
      var v := u.(mem := PushAll(s, vs).mem);
      PopsOneMore(PushAll(s, vs), |vs| - 1);
      ReturnedBySegs(s, u, vs[1..]);
      LastPop(s, vs, u, v);
    }
  }

  lemma LastPop(s: State, vs: seq<int>, u: State, v: State)
    requires |vs| > 0 && Room(s, |vs|) && u == Push(s, vs[0]) && v == u.(mem := v.mem)
    requires SameOutside(u.mem, v.mem, 0, StackTop(u))
    ensures Top(v) == Truncated(s, vs[0]) && Drop(v) == s.(mem := v.mem)
  {
    hide StackTop, Push, Top, SlotAt, Truncated, Wrap32;
    PushEffect(s, vs[0]);
    SlotFrame(u, v, StackTop(u), 0, StackTop(u));
    TopSlot(u);
    TopSlot(v);
    SameStackTop(u, v);
    DropAfterPush(s, v);
  }

  lemma SameStackTop(s: State, t: State)
    requires s.segs == t.segs && s.regs == t.regs
    ensures StackTop(s) == StackTop(t)
  {
  }

  lemma DropAfterPush(s: State, v: State)
    requires v == s.(mem := v.mem, regs := s.regs[ESP := Wrap32(s.regs[ESP] - StackWidth(s))])
    ensures Drop(v) == s.(mem := v.mem)
  {
    WrapTwice(s.regs[ESP] - StackWidth(s), StackWidth(s));
    assert Drop(v).regs == s.regs;
  }

  lemma {:induction false} ReturnedBySegs(s: State, t: State, vs: seq<int>)
    requires s.segs == t.segs
    ensures Returned(s, vs) == Returned(t, vs)
  {
    if |vs| > 0 { ReturnedBySegs(s, t, vs[1..]); }
  }

  // ----- PUSHA and POPA -----

  /** What a register holds after loading a popped value at the operand size. */
  function Loaded(s: State, r: u32, v: u32): u32 { if OpSize32(s) then v else PutLow16(r, v) }

  predicate LoadList(ids: seq<RegIndex>)
  {
    ESP !in ids && forall i, j :: 0 <= i < j < |ids| ==> ids[i] != ids[j]
  }

  /** The k-th slot from the top of the stack, counted with wrap-around as repeated pops do. */
  function SlotFromTop(s: State, k: nat): u32 {
    SlotAt(s, Linear(s, SS, Wrap32(s.regs[ESP] + Total(k, StackWidth(s)))))
  }

  /** Popping a list of registers loads each from its slot and leaves the others, but for ESP, alone. */
  lemma {:induction false} PopIntoEffect(s: State, ids: seq<RegIndex>)
    requires LoadList(ids)
    ensures var t := PopInto(s, ids);
            && t == s.(regs := t.regs)
            && t.regs[ESP] == Wrap32(s.regs[ESP] + Total(|ids|, StackWidth(s)))
            && (forall i :: 0 <= i < |ids| ==> t.regs[ids[i]] == Loaded(s, s.regs[ids[i]], SlotFromTop(s, i)))
            && (forall r :: 0 <= r < 8 && r != ESP && r !in ids ==> t.regs[r] == s.regs[r])
    decreases ids
  {
    hide SlotAt, Wrap32, Linear, Drop, Top, SetReg32, SetReg16, Loaded, SlotFromTop;
    WrapSmall(s.regs[ESP]);
    if |ids| > 0 {
      var u := if OpSize32(s) then SetReg32(Drop(s), ids[0], Top(s)) else SetReg16(Drop(s), ids[0], Top(s));
      FirstLoad(s, ids, u);
      PopIntoEffect(u, ids[1..]);
      forall i | 0 <= i < |ids| - 1
        ensures Loaded(u, u.regs[ids[1..][i]], SlotFromTop(u, i)) ==
            Loaded(s, s.regs[ids[i + 1]], SlotFromTop(s, i + 1))
      {
        NextSlot(s, u, i);
        assert Loaded(u, u.regs[ids[i + 1]], SlotFromTop(u, i)) == Loaded(s, u.regs[ids[i + 1]], SlotFromTop(u, i)) by {
          LoadedByControl(s, u, u.regs[ids[i + 1]], SlotFromTop(u, i));
        }
      }
      WrapTwice(s.regs[ESP] + StackWidth(s), Total(|ids| - 1, StackWidth(s)));
    }
  }

  lemma FirstLoad(s: State, ids: seq<RegIndex>, u: State)
    requires LoadList(ids) && |ids| > 0
    requires u == if OpSize32(s) then SetReg32(Drop(s), ids[0], Top(s)) else SetReg16(Drop(s), ids[0], Top(s))
    ensures LoadList(ids[1..]) && u == s.(regs := u.regs)
    ensures u.regs == s.regs[ESP := Wrap32(s.regs[ESP] + StackWidth(s))][ids[0] :=
        Loaded(s, s.regs[ids[0]], SlotFromTop(s, 0))]
  {
    hide PutLow16;
    WrapSmall(s.regs[ESP]);
    WrapSmall(Top(s));
    TopSlot(s);
  }

  lemma NextSlot(s: State, u: State, i: nat)
    requires u == s.(regs := u.regs) && u.regs[ESP] == Wrap32(s.regs[ESP] + StackWidth(s))
    ensures SlotFromTop(u, i) == SlotFromTop(s, i + 1)
  {
    hide Wrap32, Read16, Read32;
    WrapTwice(s.regs[ESP] + StackWidth(s), Total(i, StackWidth(s)));
    assert s.regs[ESP] + StackWidth(s) + Total(i, StackWidth(s)) == s.regs[ESP] + Total(i + 1, StackWidth(s));
  }

  lemma LoadedByControl(s: State, u: State, r: u32, v: u32)
    requires u == s.(regs := u.regs, mem := u.mem)
    ensures Loaded(s, r, v) == Loaded(u, r, v)
  {
  }

  /** The code and stack segments agree on the width and no prefix changes the operand size. */
  predicate ModesMatch(s: State) { OpSize32(s) == s.segs[SS].use32 }

  /** Slot k from the top after pushing `vs` holds the k-th last value. */
  lemma SlotsAfterPushes(s: State, vs: seq<int>, k: nat)
    requires Room(s, |vs|) && k < |vs|
    ensures SlotFromTop(PushAll(s, vs), k) == Truncated(s, vs[|vs| - 1 - k])
  {
    hide PushAll, SlotAt, Truncated, Wrap32, StackTop;
    var (t, w, i) := (PushAll(s, vs), StackWidth(s), |vs| - 1 - k);
    PushAllEffect(s, vs);
    var a := Linear(t, SS, Wrap32(t.regs[ESP] + Total(k, w)));
    UpFromTop(t, Total(k, w));
    assert a == StackTop(s) - Total(i + 1, w);
    assert SlotAt(t, a) == Truncated(s, vs[i]);
  }

  lemma UpFromTop(t: State, k: nat)
    requires StackTop(t) + k < TWO32
    ensures Linear(t, SS, Wrap32(t.regs[ESP] + k)) == StackTop(t) + k
  {
    NextLinear(t.segs[SS].base, t.regs[ESP], k);
  }

  /** A value that was in a register comes back into it whole: at 16 bits the upper half was never lost. */
  lemma LoadedBack(s: State, r: u32)
    requires ModesMatch(s)
    ensures Loaded(s, r, Truncated(s, r)) == r
  {
    PartialWrites(r, r);
    WrapSmall(r);
    Parts(r / TWO16, High8(r), Low8(r));
  }

  /** At 16 bits, SP holds 8 or 9 when PUSHA starts, so that POPA's skip carries out of SP. */
  predicate SkipCarries(s: State) { !s.segs[SS].use32 && (Low16(s.regs[ESP]) == 8 || Low16(s.regs[ESP]) == 9) }

  lemma SkipEffect(s: State, t: State, esp: u32)
    requires ModesMatch(s) && t == s.(mem := t.mem, regs := t.regs)
    requires t.regs[ESP] == Wrap32(esp - Total(5, StackWidth(s))) && esp == s.regs[ESP]
    ensures SkipStored(t) == t.(regs := t.regs[ESP := SkipStored(t).regs[ESP]])
    ensures SkipCarries(s) ==> StackWidth(s) == 2
    ensures SkipStored(t).regs[ESP] == if SkipCarries(s) then Wrap32(esp - 8 - TWO16)
        else Wrap32(esp - Total(4, StackWidth(s)))
  {
    if s.segs[SS].use32 {
      WrapTwice(esp - 20, 4);
    } else {
      SkipLow(esp);
    }
  }

  lemma SkipLow(esp: u32)
    ensures var e := Wrap32(esp - 10);
            PutLow16(e, e + 2) == if Low16(esp) == 8 || Low16(esp) == 9 then Wrap32(esp - 8 - TWO16)
              else Wrap32(esp - 8)
  {
    var e := Wrap32(esp - 10);
    NarrowWrap(esp - 10);
    ModDifference(esp, 10, 0, TWO16);
    ModSum(e, 2, 0, TWO16);
    WrapTwice(esp - 10, 2);
    WrapTwice(esp - 10, 2 - TWO16);
    var x := PutLow16(e, e + 2);
    assert x == e + 2 || x == e + 2 - TWO16;
    WrapSmall(x);
  }

  /** PUSHA then POPA restores every register, unless at 16 bits the skip over the stored SP carries: then ESP
      ends 64K low. Memory changes in the eight slots only. */
  lemma PushaThenPopa(s: State)
    requires Room(s, 8) && ModesMatch(s)
    ensures SameOutside(s.mem, DoPusha(s).mem, StackTop(s) - Total(8, StackWidth(s)), StackTop(s))
    ensures !SkipCarries(s) ==> DoPopa(DoPusha(s)) == s.(mem := DoPusha(s).mem)
    ensures SkipCarries(s) ==> DoPopa(DoPusha(s)).regs[ESP] == Wrap32(s.regs[ESP] - TWO16) != s.regs[ESP]
  {
    hide SlotAt, Wrap32, Linear, Drop, Top, Push, Loaded, Truncated, SlotFromTop, StackTop, SkipCarries, SkipStored,
      PopInto;
    hide PushAll, ModesMatch;
    var (r, w) := (s.regs, StackWidth(s));
    var vs := [r[EAX], r[ECX], r[EDX], r[EBX], r[ESP], r[EBP], r[ESI], r[EDI]];
    var t := PushAll(s, vs);
    PushAllEffect(s, vs);
    var low: seq<RegIndex> := [EDI, ESI, EBP];
    var high: seq<RegIndex> := [EBX, EDX, ECX, EAX];
    var a := PopInto(t, low);
    PopBack(s, vs, t, 0, low);
    EspAfter(r[ESP], t.regs[ESP], 8, 3, w);
    var b := SkipStored(a);
    SkipEffect(s, a, r[ESP]);
    var c := PopInto(b, high);
    PopIntoEffect(b, high);
    BackAtTop(r[ESP], Total(4, w));
    if !SkipCarries(s) {
      PopBack(s, vs, b, 4, high);
      assert c.regs == s.regs;
    }
    assert c == DoPopa(DoPusha(s));
  }

  lemma BackAtTop(esp: u32, k: nat)
    ensures Wrap32(Wrap32(esp - k) + k) == esp
    ensures Wrap32(Wrap32(esp - 8 - TWO16) + 8) == Wrap32(esp - TWO16) != esp
  {
    WrapTwice(esp - k, k);
    WrapTwice(esp - 8 - TWO16, 8);
  }

  /** The registers of `b`, but for ESP, are those of `s`, and the pushed values from the j-th last on are theirs. */
  ghost predicate SavedFor(s: State, b: State, vs: seq<int>, j: nat, ids: seq<RegIndex>)
    requires j + |ids| <= |vs|
  {
    && (forall r :: 0 <= r < 8 && r != ESP ==> b.regs[r] == s.regs[r])
    && (forall i :: 0 <= i < |ids| ==> vs[|vs| - 1 - j - i] == s.regs[ids[i]])
  }

  /** Popping registers whose values were pushed, after `j` slots are gone, puts the same values back. */
  lemma PopBack(s: State, vs: seq<int>, b: State, j: nat, ids: seq<RegIndex>)
    requires Room(s, |vs|) && ModesMatch(s) && LoadList(ids) && j + |ids| <= |vs|
    requires b == s.(mem := PushAll(s, vs).mem, regs := b.regs)
    requires b.regs[ESP] == Wrap32(s.regs[ESP] - Total(|vs| - j, StackWidth(s)))
    requires SavedFor(s, b, vs, j, ids)
    ensures PopInto(b, ids) == b.(regs := PopInto(b, ids).regs)
    ensures PopInto(b, ids).regs[ESP] == Wrap32(b.regs[ESP] + Total(|ids|, StackWidth(b)))
    ensures forall r :: 0 <= r < 8 && r != ESP ==> PopInto(b, ids).regs[r] == s.regs[r]
  {
    hide Wrap32, Loaded, SlotFromTop, PopInto, PushAll, ModesMatch, Room, Total;
    BackValues(s, vs, b, j, ids);
    LoadsBack(b, ids);
  }

  /** Loading what the registers already hold changes only ESP. */
  lemma LoadsBack(b: State, ids: seq<RegIndex>)
    requires LoadList(ids)
    requires forall i :: 0 <= i < |ids| ==> Loaded(b, b.regs[ids[i]], SlotFromTop(b, i)) == b.regs[ids[i]]
    ensures var c := PopInto(b, ids);
            && c == b.(regs := c.regs) && c.regs[ESP] == Wrap32(b.regs[ESP] + Total(|ids|, StackWidth(b)))
            && (forall r :: 0 <= r < 8 && r != ESP ==> c.regs[r] == b.regs[r])
  {
    hide Wrap32, Loaded, SlotFromTop, PopInto, Total;
    PopIntoEffect(b, ids);
  }

  lemma BackValues(s: State, vs: seq<int>, b: State, j: nat, ids: seq<RegIndex>)
    requires Room(s, |vs|) && ModesMatch(s) && ESP !in ids && j + |ids| <= |vs|
    requires b == s.(mem := PushAll(s, vs).mem, regs := b.regs)
    requires b.regs[ESP] == Wrap32(s.regs[ESP] - Total(|vs| - j, StackWidth(s)))
    requires SavedFor(s, b, vs, j, ids)
    ensures forall i :: 0 <= i < |ids| ==> Loaded(b, b.regs[ids[i]], SlotFromTop(b, i)) == b.regs[ids[i]]
  {
    hide Wrap32, Loaded, SlotFromTop, PushAll, ModesMatch, Room, Total;
    forall i | 0 <= i < |ids|
      ensures Loaded(b, b.regs[ids[i]], SlotFromTop(b, i)) == b.regs[ids[i]]
    {
      OneBack(s, vs, b, j, i, s.regs[ids[i]]);
    }
  }

  lemma EspAfter(esp: u32, e: u32, n: nat, k: nat, w: nat)
    requires ElementSize(w) && k <= n && e == Wrap32(esp - Total(n, w))
    ensures Wrap32(e + Total(k, w)) == Wrap32(esp - Total(n - k, w))
  {
    hide Wrap32;
    WrapTwice(esp - Total(n, w), Total(k, w));
    assert esp - Total(n, w) + Total(k, w) == esp - Total(n - k, w);
  }

  lemma OneBack(s: State, vs: seq<int>, b: State, j: nat, i: nat, r: u32)
    requires Room(s, |vs|) && ModesMatch(s) && j + i < |vs| && vs[|vs| - 1 - j - i] == r
    requires b == s.(mem := PushAll(s, vs).mem, regs := b.regs)
    requires b.regs[ESP] == Wrap32(s.regs[ESP] - Total(|vs| - j, StackWidth(s)))
    ensures Loaded(b, r, SlotFromTop(b, i)) == r
  {
    hide SlotAt, Wrap32, Linear, Loaded, Truncated, SlotFromTop, StackTop, PushAll, ModesMatch, Room;
    SlotFromLater(s, vs, b, j, i);
    SlotsAfterPushes(s, vs, j + i);
    assert vs[|vs| - 1 - (j + i)] == r;
    LoadedByControl(s, b, r, SlotFromTop(b, i));
    LoadedBack(s, r);
  }

  lemma SlotFromLater(s: State, vs: seq<int>, b: State, j: nat, i: nat)
    requires Room(s, |vs|) && j <= |vs|
    requires b == s.(mem := PushAll(s, vs).mem, regs := b.regs)
    requires b.regs[ESP] == Wrap32(s.regs[ESP] - Total(|vs| - j, StackWidth(s)))
    ensures SlotFromTop(b, i) == SlotFromTop(PushAll(s, vs), j + i)
  {
    hide Wrap32, Read16, Read32, PushAll, StackTop, Room, SlotAt, SameOutside, Total, Linear;
    PushAllEffect(s, vs);
    var (t, w) := (PushAll(s, vs), StackWidth(s));
    TotalsAdd(|vs|, j, i, w);
    var (up, down) := (Total(i, w), Total(|vs| - j, w));
    WrapTwice(s.regs[ESP] - down, up);
    WrapTwice(s.regs[ESP] - Total(|vs|, w), Total(j + i, w));
    assert s.regs[ESP] - down + up == s.regs[ESP] - Total(|vs|, w) + Total(j + i, w);
    SlotBySegs(b, t, Linear(b, SS, Wrap32(b.regs[ESP] + up)));
    LinearOf(b, t, Wrap32(b.regs[ESP] + up));
  }

  lemma TotalsAdd(n: nat, j: nat, i: nat, w: nat)
    requires ElementSize(w) && j <= n
    ensures Total(i, w) - Total(n - j, w) == Total(j + i, w) - Total(n, w)
  {
  }

  lemma LinearOf(s: State, t: State, x: int)
    requires s.segs == t.segs
    ensures Linear(s, SS, x) == Linear(t, SS, x)
  {
  }

  lemma SlotBySegs(s: State, t: State, a: u32)
    requires s.segs == t.segs && s.mem == t.mem
    ensures SlotAt(s, a) == SlotAt(t, a)
  {
  }

  // ----- ENTER and LEAVE -----

  /** Straight-line code between function entry and exit: an opaque stretch, given by the state it leaves, or a
      nested ENTER ... LEAVE. */
  datatype Block = Stretch(after: State) | Frame(locals: u16, body: seq<Block>)

  function Entered(s: State, locals: u16): State
  {
    match DoEnter(s, Decoded(DImm, locals, Sz16, 0))
    case Ok(t) => t
    case Halted(_) => s
  }

  function RunBlock(s: State, b: Block): State
    decreases b, 0
  {
    match b
    case Stretch(after) => after
    case Frame(locals, body) => DoLeave(RunBlocks(Entered(s, locals), body))
  }

  function RunBlocks(s: State, bs: seq<Block>): State
    decreases bs, 1
  {
    if |bs| == 0 then s else RunBlocks(RunBlock(s, bs[0]), bs[1..])
  }

  ghost predicate Keeps(s: State, t: State, kept: set<int>)
  {
    && s.segs == t.segs && |s.mem| == |t.mem| && t.regs[EBP] == s.regs[EBP]
    && forall i :: i in kept && 0 <= i < |s.mem| ==> t.mem[i] == s.mem[i]
  }

  /** The four bytes of the saved EBP, just below the stack top at entry. */
  function SavedSlot(s: State): set<int>
  {
    {StackTop(s) - 1, StackTop(s) - 2, StackTop(s) - 3, StackTop(s) - 4}
  }

  /** A stretch keeps EBP, the segments and the protected bytes; an entry finds room for its two pushes clear of
      them, and its body protects the slot it adds as well. */
  ghost predicate RespectsFrames(s: State, b: Block, kept: set<int>)
    decreases b, 0
  {
    match b
    case Stretch(after) => Keeps(s, after, kept)
    case Frame(locals, body) =>
      && Room(s, 2) && (forall i :: StackTop(s) - 8 <= i < StackTop(s) ==> i !in kept)
      && AllRespectFrames(Entered(s, locals), body, kept + SavedSlot(s))
  }

  ghost predicate AllRespectFrames(s: State, bs: seq<Block>, kept: set<int>)
    decreases bs, 1
  {
    |bs| > 0 ==> RespectsFrames(s, bs[0], kept) && AllRespectFrames(RunBlock(s, bs[0]), bs[1..], kept)
  }

  lemma EnterEffect(s: State, locals: u16, t: State)
    requires s.segs[SS].use32 && Room(s, 2) && t == Entered(s, locals)
    ensures t.segs == s.segs && SameOutside(s.mem, t.mem, StackTop(s) - 8, StackTop(s))
    ensures t.regs[EBP] == Wrap32(s.regs[ESP] as int - 4)
    ensures Linear(t, SS, t.regs[EBP]) == StackTop(s) - 4
    ensures SlotAt(t, Linear(t, SS, t.regs[EBP])) == s.regs[EBP]
  {
    hide Push, Top, SlotAt, Wrap32, StackTop, Truncated, Linear;
    var u := Push(s, s.regs[EBP]);
    var v := Push(u, u.regs[ESP]);
    RoomAfterPush(s, s.regs[EBP], 2);
    PushEffect(s, s.regs[EBP]);
    RoomAfterPush(u, u.regs[ESP], 1);
    PushEffect(u, u.regs[ESP]);
    EnteredIs(s, locals, u, v);
    SavedSlotKept(s, u, v);
    WrapSmall(u.regs[ESP]);
    FrameAddress(u, v, t);
  }

  lemma EnteredIs(s: State, locals: u16, u: State, v: State)
    requires u == Push(s, s.regs[EBP]) && v == Push(u, u.regs[ESP])
    ensures Entered(s, locals) == SetReg32(SetReg32(v, EBP, u.regs[ESP]), ESP, v.regs[ESP] - locals)
  {
    hide Push;
  }

  lemma SavedSlotKept(s: State, u: State, v: State)
    requires s.segs[SS].use32 && u.segs == s.segs && v.segs == s.segs && Room(u, 1)
    requires Top(u) == Truncated(s, s.regs[EBP]) && StackTop(u) + 4 <= Span(s.mem) && |u.mem| == |s.mem|
    requires SameOutside(u.mem, v.mem, StackTop(u) - 4, StackTop(u))
    ensures SlotAt(v, StackTop(u)) == s.regs[EBP]
  {
    hide StackTop, Top, SlotAt;
    TopSlot(u);
    SlotFrame(u, v, StackTop(u), StackTop(u) - 4, StackTop(u));
    WrapSmall(s.regs[EBP]);
  }

  lemma FrameAddress(u: State, v: State, t: State)
    requires v.segs == u.segs && t == v.(regs := t.regs) && t.regs[EBP] == u.regs[ESP]
    ensures Linear(t, SS, t.regs[EBP]) == StackTop(u)
    ensures SlotAt(t, Linear(t, SS, t.regs[EBP])) == SlotAt(v, StackTop(u))
  {
    hide Wrap32, Read16, Read32;
  }

  lemma LeaveEffect(s: State)
    requires s.segs[SS].use32
    ensures var t := DoLeave(s);
            && t == s.(regs := t.regs) && t.regs[EBP] == SlotAt(s, Linear(s, SS, s.regs[EBP]))
            && t.regs[ESP] == Wrap32(s.regs[EBP] as int + 4)
  {
    hide Read32;
    WrapSmall(s.regs[EBP]);
    WrapSmall(Top(SetReg32(s, ESP, s.regs[EBP])));
  }

  /** In 32-bit mode a frame, with any frames nested in it, gives back EBP and ESP as they were before its ENTER
      and leaves every byte protected outside it as it was. */
  lemma {:induction false} FrameRestores(s: State, b: Block, kept: set<int>)
    requires s.segs[SS].use32 && RespectsFrames(s, b, kept)
    ensures Keeps(s, RunBlock(s, b), kept)
    ensures b.Frame? ==> RunBlock(s, b).regs[ESP] == s.regs[ESP]
    decreases b, 0
  {
    match b
    case Stretch(_) =>
    case Frame(locals, body) =>
      var t := Entered(s, locals);
      EnterEffect(s, locals, t);
      FramesRestore(t, body, kept + SavedSlot(s));
      FrameLeaves(s, t, RunBlocks(t, body), kept);
  }

  lemma FrameLeaves(s: State, t: State, u: State, kept: set<int>)
    requires s.segs[SS].use32 && Room(s, 2) && t.segs == s.segs
    requires forall i :: StackTop(s) - 8 <= i < StackTop(s) ==> i !in kept
    requires SameOutside(s.mem, t.mem, StackTop(s) - 8, StackTop(s))
    requires t.regs[EBP] == Wrap32(s.regs[ESP] as int - 4)
    requires Linear(t, SS, t.regs[EBP]) == StackTop(s) - 4
    requires SlotAt(t, Linear(t, SS, t.regs[EBP])) == s.regs[EBP]
    requires Keeps(t, u, kept + SavedSlot(s))
    ensures Keeps(s, DoLeave(u), kept) && DoLeave(u).regs[ESP] == s.regs[ESP]
  {
    hide DoLeave, Wrap32, StackTop, Linear;
    LeaveEffect(u);
    WrapTwice(s.regs[ESP] as int - 4, 4);
    WrapSmall(s.regs[ESP]);
    SameSlot(t, u, StackTop(s) - 4);
    assert Linear(u, SS, u.regs[EBP]) == Linear(t, SS, t.regs[EBP]) by { LinearBySegs(t, u, t.regs[EBP]); }
  }

  lemma LinearBySegs(s: State, t: State, x: int)
    requires s.segs == t.segs
    ensures Linear(s, SS, x) == Linear(t, SS, x)
  {
  }

  lemma SameSlot(t: State, u: State, a: u32)
    requires t.segs == u.segs && t.segs[SS].use32 && |t.mem| == |u.mem| && a + 4 <= Span(t.mem)
    requires forall k :: a <= k < a + 4 ==> t.mem[k] == u.mem[k]
    ensures SlotAt(t, a) == SlotAt(u, a)
  {
    hide Bytes32;
  }

  lemma {:induction false} FramesRestore(s: State, bs: seq<Block>, kept: set<int>)
    requires s.segs[SS].use32 && AllRespectFrames(s, bs, kept)
    ensures Keeps(s, RunBlocks(s, bs), kept)
    decreases bs, 1
  {
    if |bs| > 0 {
      FrameRestores(s, bs[0], kept);
      FramesRestore(RunBlock(s, bs[0]), bs[1..], kept);
    }
  }
}
