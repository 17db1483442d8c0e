/** An imported call, end to end: the page fixups of locutus have patched a CALL, and the interpreter runs it through
    the thunk to the host function and back. */
module ImportCall {
  import opened Words
  import opened I386
  import opened Machine
  import opened Step
  import opened RunInvariants
  import opened Instructions
  import opened Thunks
  import opened Fixups
  import StackLaws
  import StringLaws

  /** Where the return address goes, the memory the host function sees and what it yields. */
  function ReturnSlot(s: State): u32 { Wrap32(s.regs[ESP] as int - 4) }
  function Called(s: State): (m: Memory)
    ensures |m| == |s.mem|
  {
    Write32(s.mem, ReturnSlot(s), Wrap32(s.eip + 5))
  }

  function HostOf(s: State, env: Env, pointer: u32): HostResult { env.host(pointer, s.regs[ESP], Called(s)) }

  /** The stack slot is clear of the thunk, and the host function stores neither to the return address nor to the
      thunk's last byte. */
  ghost predicate CallIsClean(s: State, env: Env, pointer: u32, target: u32)
  {
    var a := ReturnSlot(s);
    && (a + 4 <= target || target + 8 <= a) && target + 8 <= BUS32
    && target + 7 !in HostOf(s, env, pointer).stores
    && forall k :: a <= k < a + 4 ==> k !in HostOf(s, env, pointer).stores
  }

  /** The state after the call: EAX and memory are the host function's, EIP is behind the CALL, and everything else is
      as it was. */
  function Returned(s: State, env: Env, pointer: u32, target: u32): State
    requires target + 8 <= BUS32
  {
    var h := HostOf(s, env, pointer);
    s.(regs := s.regs[EAX := h.eax], eip := Wrap32(s.eip + 5), oldEip := Wrap32(target + 8), stepsRun := s.stepsRun + 4,
       mem := HostStores(Called(s), h.stores))
  }

  // ----- The states in between -----

  /** After the CALL, the MOV and the INT: `done` steps have brought EIP to `eip`. */
  function AtThunk(s: State, regs: Regs, eip: u32, oldEip: u32, done: nat, mem: Memory): State
  {
    s.(regs := regs, eip := eip, oldEip := oldEip, stepsRun := s.stepsRun + done, mem := mem)
  }

  function Entered(s: State, target: u32): State
  {
    AtThunk(s, s.regs[ESP := ReturnSlot(s)], target, Wrap32(s.eip + 5), 1, Called(s))
  }

  function Loaded(s: State, pointer: u32, target: u32): State
    requires target + 8 <= BUS32
  {
    AtThunk(s, s.regs[ESP := ReturnSlot(s)][EAX := pointer], target + 5, target + 5, 2, Called(s))
  }

  function Served(s: State, env: Env, pointer: u32, target: u32): State
    requires target + 8 <= BUS32
  {
    var h := HostOf(s, env, pointer);
    AtThunk(s, s.regs[ESP := ReturnSlot(s)][EAX := h.eax], target + 7, target + 7, 3, HostStores(Called(s), h.stores))
  }

  lemma EntersThunk(s: State, env: Env, target: u32)
    requires Flat32(s) && Code8(s) == 0xE8 && Wrap32(s.eip + 5 + Code32(Skip(s, 1))) == target
    ensures Flat32(Entered(s, target)) && Steps(s, Entered(s, target), env, 1)
  {
    hide Code8, Code32, Step.Step, Steps, Called;
    StepCall32(s, env, target);
    PushIsCall(s, Behind(s, 5));
    OneStep(s, Entered(s, target), env);
  }

  lemma PushIsCall(s: State, b: State)
    requires Flat32(s) && b.regs == s.regs && b.mem == s.mem && b.segs == s.segs
    ensures Push(b, Wrap32(s.eip + 5)) == b.(regs := s.regs[ESP := ReturnSlot(s)], mem := Called(s))
  {
    hide Write32;
    WrapSmall(ReturnSlot(s));
  }

  lemma ThunkStillThere(m: Memory, a: u32, v: int, target: u32, bytes: seq<u8>)
    requires |m| == BUS32 + SLACK && BytesAt(m, target, bytes) && (a + 4 <= target || target + |bytes| <= a)
    ensures |Write32(m, a, v)| == |m| && BytesAt(Write32(m, a, v), target, bytes)
  {
  }

  lemma ThunkCode(s: State, target: u32, pointer: u32, k: nat)
    requires Flat32(s) && target + 8 <= BUS32 && BytesAt(s.mem, target, ThunkBytes(pointer)) && s.eip == target + k
        && k < 8
    ensures Code8(s) == ThunkBytes(pointer)[k]
    ensures k == 0 ==> Code32(Skip(s, 1)) == pointer
    ensures k == 5 ==> Code8(Skip(s, 1)) == 0x80
  {
    hide ByteOf, Bytes32;
    WrapSmall(s.eip);
    if k < 7 { WrapSmall(s.eip + 1); }
    var bytes := ThunkBytes(pointer);
    assert s.mem[target + k] == bytes[k];
    if k == 0 { PointerAt(s.mem, target, pointer); }
    if k == 5 { assert s.mem[target + 6] == bytes[6]; }
  }

  lemma PointerAt(m: Memory, target: u32, pointer: u32)
    requires |m| == BUS32 + SLACK && target + 8 <= BUS32 && BytesAt(m, target, ThunkBytes(pointer))
    ensures Read32(m, target + 1) == pointer
  {
    hide ByteOf, Bytes32;
    BytesOfWord(pointer);
    WrapSmall(pointer);
    var bytes := ThunkBytes(pointer);
    assert m[target + 1] == bytes[1] && m[target + 2] == bytes[2] && m[target + 3] == bytes[3]
      && m[target + 4] == bytes[4];
  }

  lemma LoadsPointer(s: State, env: Env, pointer: u32, target: u32)
    requires Flat32(s) && target + 8 <= BUS32 && BytesAt(Called(s), target, ThunkBytes(pointer))
    ensures Flat32(Loaded(s, pointer, target)) && Steps(Entered(s, target), Loaded(s, pointer, target), env, 1)
  {
    hide Code8, Code32, Step.Step, Steps, Called, BytesAt;
    var e := Entered(s, target);
    ThunkCode(e, target, pointer, 0);
    StepMovEax32(e, env);
    WrapSmall(pointer);
    WrapSmall(target + 5);
    OneStep(e, Loaded(s, pointer, target), env);
  }

  lemma CallsHost(s: State, env: Env, pointer: u32, target: u32)
    requires Flat32(s) && target + 8 <= BUS32 && BytesAt(Called(s), target, ThunkBytes(pointer))
    ensures Flat32(Served(s, env, pointer, target))
        && Steps(Loaded(s, pointer, target), Served(s, env, pointer, target), env, 1)
  {
    hide Code8, Step.Step, Steps, Called, BytesAt, HostStores;
    var e := Loaded(s, pointer, target);
    ThunkCode(e, target, pointer, 5);
    StepHostCall32(e, env);
    WrapTwice(s.regs[ESP] as int - 4, 4);
    WrapSmall(s.regs[ESP]);
    WrapSmall(target + 7);
    var h := HostOf(s, env, pointer);
    assert e.regs[EAX] == pointer && e.regs[ESP] == ReturnSlot(s);
    assert e.regs[EAX := h.eax] == s.regs[ESP := ReturnSlot(s)][EAX := h.eax];
    OneStep(e, Served(s, env, pointer, target), env);
  }

  /** The RET finds its own byte and the return address as the CALL left them. */
  lemma ReturnsToCaller(s: State, env: Env, pointer: u32, target: u32)
    requires Flat32(s) && BytesAt(Called(s), target, ThunkBytes(pointer)) && CallIsClean(s, env, pointer, target)
    ensures Steps(Served(s, env, pointer, target), Returned(s, env, pointer, target), env, 1)
  {
    hide Code8, Step.Step, Steps, Called, BytesAt, HostStores, Served, Returned, Top, Drop;
    RetIsThere(s, env, pointer, target);
    TopIsReturn(s, env, pointer, target);
    DropsToCaller(s, env, pointer, target);
    ServedIsFlat(s, env, pointer, target);
    StepRet(Served(s, env, pointer, target), env);
    OneStep(Served(s, env, pointer, target), Returned(s, env, pointer, target), env);
  }

  lemma ServedIsFlat(s: State, env: Env, pointer: u32, target: u32)
    requires Flat32(s) && target + 8 <= BUS32
    ensures Flat32(Served(s, env, pointer, target))
  {
    hide Called, HostStores, HostOf;
  }

  lemma RetIsThere(s: State, env: Env, pointer: u32, target: u32)
    requires Flat32(s) && BytesAt(Called(s), target, ThunkBytes(pointer)) && CallIsClean(s, env, pointer, target)
    ensures Code8(Served(s, env, pointer, target)) == 0xC3
  {
    hide Called, HostOf;
    var bytes := ThunkBytes(pointer);
    assert bytes[7] == 0xC3 && Called(s)[target + 7] == bytes[7];
  }

  lemma TopIsReturn(s: State, env: Env, pointer: u32, target: u32)
    requires Flat32(s) && CallIsClean(s, env, pointer, target)
    ensures Top(Behind(Served(s, env, pointer, target), 1)) == Wrap32(s.eip + 5)
  {
    hide HostOf, Bytes32, Called;
    var (a, m, h) := (ReturnSlot(s), Called(s), HostOf(s, env, pointer));
    WrapSmall(a);
    CalledReads(s);
    assert forall k :: a <= k < a + 4 ==> HostStores(m, h.stores)[k] == m[k];
  }

  lemma CalledReads(s: State)
    ensures Read32(Called(s), ReturnSlot(s)) == Wrap32(s.eip + 5)
  {
    hide Write32, Read32;
    ReadBack(s.mem, ReturnSlot(s), Wrap32(s.eip + 5));
    WrapSmall(Wrap32(s.eip + 5));
  }

  lemma DropsToCaller(s: State, env: Env, pointer: u32, target: u32)
    requires Flat32(s) && target + 8 <= BUS32
    ensures Drop(Behind(Served(s, env, pointer, target), 1)).(eip := Wrap32(s.eip + 5)) ==
        Returned(s, env, pointer, target)
  {
    hide Called, HostOf, HostStores, Wrap32;
    WrapTwice(s.regs[ESP] as int - 4, 4);
    WrapSmall(s.regs[ESP]);
    var h := HostOf(s, env, pointer);
    assert s.regs[ESP := ReturnSlot(s)][EAX := h.eax][ESP := s.regs[ESP]] == s.regs[EAX := h.eax];
  }

  /** A CALL whose displacement leads to a thunk comes back in four steps, with the host function called on the address
      of the caller's first pushed argument. */
  lemma CallReturns(s: State, env: Env, pointer: u32, target: u32)
    requires Flat32(s) && Code8(s) == 0xE8 && Wrap32(s.eip + 5 + Code32(Skip(s, 1))) == target
    requires BytesAt(s.mem, target, ThunkBytes(pointer)) && CallIsClean(s, env, pointer, target)
    ensures Steps(s, Returned(s, env, pointer, target), env, 4)
  {
    hide Code8, Code32, Steps, Write32, HostOf, BytesAt, Entered, Loaded, Served, Returned;
    ThunkStillThere(s.mem, ReturnSlot(s), Wrap32(s.eip + 5), target, ThunkBytes(pointer));
    EntersThunk(s, env, target);
    LoadsPointer(s, env, pointer, target);
    CallsHost(s, env, pointer, target);
    ReturnsToCaller(s, env, pointer, target);
    var (a, b, c, d) := (Entered(s, target), Loaded(s, pointer, target), Served(s, env, pointer, target),
      Returned(s, env, pointer, target));
    StepsCompose(s, a, b, env, 1, 1);
    StepsCompose(s, b, c, env, 2, 1);
    StepsCompose(s, c, d, env, 3, 1);
  }

  /** What the host function reads: after the caller has pushed `vs`, the k-th double word from the address it is given
      is the k-th value from the last. */
  lemma ArgumentsReachHost(s: State, vs: seq<int>, t: State, k: nat)
    requires Flat32(s) && StackLaws.Room(s, |vs| + 1) && k < |vs|
    requires t.regs == PushAll(s, vs).regs && t.mem == PushAll(s, vs).mem && t.segs == s.segs
    ensures Read32(Called(t), Wrap32(t.regs[ESP] + StringLaws.Total(k, 4))) == Wrap32(vs[|vs| - 1 - k])
  {
    hide PushAll, Read32, Called, StackLaws.SlotAt, StackLaws.SlotFromTop, StackLaws.Room, StackLaws.Truncated;
    var (p, n) := (PushAll(s, vs), StringLaws.Total(k, 4));
    StackOf(s, vs);
    StackLaws.SlotsAfterPushes(s, vs, k);
    var e := p.regs[ESP];
    SlotIs32(s, p, k, e + n, vs[|vs| - 1 - k]);
    WrapSmall(e + n);
    BelowStaysClear(t, e, e + n);
  }

  /** Where the pushes leave ESP: in a flat segment nothing wraps. */
  lemma StackOf(s: State, vs: seq<int>)
    requires Flat32(s) && StackLaws.Room(s, |vs| + 1)
    ensures StackLaws.Room(s, |vs|) && Flat32(PushAll(s, vs))
    ensures PushAll(s, vs).regs[ESP] == s.regs[ESP] as int - StringLaws.Total(|vs|, 4) >= 4
  {
    hide PushAll, StackLaws.SlotAt, StackLaws.Truncated;
    WrapSmall(s.regs[ESP]);
    assert StackLaws.Room(s, |vs|);
    StackLaws.PushAllEffect(s, vs);
    WrapSmall(s.regs[ESP] - StringLaws.Total(|vs|, 4));
  }

  lemma SlotIs32(s: State, p: State, k: nat, a: u32, v: int)
    requires Flat32(s) && Flat32(p) && a == p.regs[ESP] + StringLaws.Total(k, 4)
    requires StackLaws.SlotFromTop(p, k) == StackLaws.Truncated(s, v)
    ensures Read32(p.mem, a) == Wrap32(v)
  {
    hide Read32;
    WrapSmall(a);
  }

  /** The return address is stored below everything the caller pushed. */
  lemma BelowStaysClear(t: State, e: u32, a: u32)
    requires |t.mem| == BUS32 + SLACK && t.regs[ESP] == e && 4 <= e <= a && a + 4 <= BUS32
    ensures Read32(Called(t), a) == Read32(t.mem, a)
  {
    hide Write32, Bytes32;
    WrapSmall(e - 4);
    StackLaws.WriteFrame(t.mem, e - 4, Wrap32(t.eip + 5));
  }

  /** The displacement is stored, or need not be: doFixup skips it when the target is the very next instruction. */
  predicate Reaches32(before: Memory, site: u32, target: u32)
    requires site + 6 <= BUS32
  {
    target != Wrap32(site + 4) || Read32(before, site) == 0
  }

  /** One step over such a CALL, once the page is done, comes to the thunk exactly then. */
  lemma CallGoesToThunk(orig: seq<seq<u32>>, states: seq<Loader>, records: seq<Record>, values: seq<u32>, pDst: u32,
      extra: nat, lo: nat, hi: nat, i: nat, o: u16, s: State, env: Env)
    requires pDst + REACH <= BUS32 && Applied(states, records, values, pDst, extra)
    requires Memo(orig, states[0]) && Reserved(orig, states[0], lo, hi) && PageIn(records, pDst, lo, hi)
    requires i < |records| && o in Offsets(records[i].source) && records[i].kind == SELF_RELATIVE
    requires ClearSite(PageWrites(records, values, pDst), SourceWrite(records, values, pDst, i, o), 4)
    requires records[i].target.Ordinal? && records[i].additive.Value() == 0 && values[i] != 0
    requires Flat32(s) && s.mem == states[|records|].mem && s.eip + 1 == pDst + o && Code8(s) == 0xE8
    ensures Step.Step(s, env).Ok?
    ensures Step.Step(s, env).value.eip == values[i] <==> Reaches32(states[0].mem, pDst + o, values[i])
  {
    hide RecordDone, Memo, Reserved, PageIn, ClearSite, PageWrites, Locate, Code8, BytesAt, Read32, Step.Step, Code32,
      Push;
    CallSiteIsReady(orig, states, records, values, pDst, extra, lo, hi, i, o);
    Displacement(s);
    StepCall32(s, env, Wrap32(s.eip + 5 + Code32(Skip(s, 1))));
  }

  /** The main theorem. Once the fixups of a page have been applied, a CALL whose displacement is a self-relative import
      by ordinal, and that goes to its thunk, comes back from the host function in four steps. */
  lemma PatchedCallReturns(orig: seq<seq<u32>>, states: seq<Loader>, records: seq<Record>, values: seq<u32>, pDst: u32,
      extra: nat, lo: nat, hi: nat, i: nat, o: u16, p: ImportWord, s: State, env: Env)
    requires pDst + REACH <= BUS32 && Applied(states, records, values, pDst, extra)
    requires Memo(orig, states[0]) && Reserved(orig, states[0], lo, hi) && PageIn(records, pDst, lo, hi)
    requires i < |records| && o in Offsets(records[i].source) && records[i].kind == SELF_RELATIVE
    requires ClearSite(PageWrites(records, values, pDst), SourceWrite(records, values, pDst, i, o), 4)
    requires records[i].target.Ordinal? && records[i].additive.Value() == 0 && values[i] != 0
    requires Reaches32(states[0].mem, pDst + o, values[i])
    requires Flat32(s) && s.mem == states[|records|].mem && s.eip + 1 == pDst + o && Code8(s) == 0xE8
    requires p == Locate(states[0], ModuleOf(records[i].target), records[i].target.importId.Value()) && p.Word?
    requires IsWord(orig, p.table, p.index) && CallIsClean(s, env, orig[p.table][p.index], values[i])
    ensures Steps(s, Returned(s, env, orig[p.table][p.index], values[i]), env, 4)
  {
    hide RecordDone, Memo, Reserved, PageIn, ClearSite, PageWrites, Locate, Code8, Steps, CallIsClean, BytesAt, Read32;
    CallSiteIsReady(orig, states, records, values, pDst, extra, lo, hi, i, o);
    Displacement(s);
    CallReturns(s, env, orig[p.table][p.index], values[i]);
  }

  lemma Displacement(s: State)
    requires Flat32(s) && s.eip + 1 < TWO32
    ensures Code32(Skip(s, 1)) == Read32(s.mem, s.eip + 1)
  {
    hide Read32;
    WrapSmall(s.eip + 1);
  }
}
