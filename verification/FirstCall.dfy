/** The whole way, from VMMInit to a host function and back, for a program of one imported call. */
module FirstCall {
  import opened Words
  import opened I386
  import opened Machine
  import opened Step
  import opened Instructions
  import opened PageFrames
  import opened Thunks
  import opened Fixups
  import opened ImportCall

  /** Where the first thunk goes: 8 MB. */
  const FIRST_THUNK := 0x80_0000

  /** A program that imports from MSG alone, just loaded: VMMInit and ResolveImports have run, and one page has been
      allocated for its object. The message function is entry 5 of module 1. */
  function OneImport(pages: seq<bool>, mem: seq<u8>, pointer: u32, page: nat): Loader
  {
    Loader(2, [NoTable, Table(0)], [[6, 0, 0, 0, 0, 0, pointer]], mem, Marked(pages, page, 1))
  }

  /** The record for a call whose displacement is at offset `o` of the page. */
  function OneCall(o: u16): Record { Record(SELF_RELATIVE, false, Single(o), Ordinal(Byte(1), Byte(5)), Absent) }

  /** The program's page is below 8 MB, and the call lies in it with its opcode. */
  ghost predicate Placed(pages: seq<bool>, mem: seq<u8>, pointer: u32, extra: nat, page: nat, o: u16)
  {
    && Initial(pages) && TakenBehind(pages, OWN_PAGES) && |pages| <= MAX_PAGES && extra <= 1 && |mem| == BUS32 + SLACK
    && 0 < pointer < TAG && 16 <= page < THUNK_BASE && 1 <= o && o + 4 <= PAGE_SIZE
      && mem[PAGE_SIZE * page + o - 1] == 0xE8
  }

  /** The processor is about to run the call. */
  ghost predicate Ready(s: State, mem: seq<u8>, page: nat, o: u16)
  {
    Flat32(s) && s.mem == mem && s.eip + 1 == PAGE_SIZE * page + o
  }

  /** From VMMInit: the page is allocated, the stream of one record is applied to it, and the call runs through the
      first thunk to the host function and back; for every host pointer and memory, either count of free pages, every
      page and offset, and every processor and host that keep the call clean, as long as the call goes to its thunk. */
  lemma FirstImportCall(pages: seq<bool>, mem: seq<u8>, pointer: u32, extra: nat, page: nat, o: u16)
    returns (states: seq<Loader>, values: seq<u32>)
    requires Placed(pages, mem, pointer, extra, page, o)
    ensures Allocates(pages, OneImport(pages, mem, pointer, page).pages, page, Region(page, 1), extra)
    ensures ParseAll(Serialise(OneCall(o)), 0, |Serialise(OneCall(o))|) == Stream([OneCall(o)], |Serialise(OneCall(o))|)
    ensures Applied(states, [OneCall(o)], values, PAGE_SIZE * page, extra)
        && states[0] == OneImport(pages, mem, pointer, page)
    ensures values == [FIRST_THUNK]
    ensures forall s: State, env: Env :: Ready(s, states[1].mem, page, o) ==>
              && Step.Step(s, env).Ok?
              && (Step.Step(s, env).value.eip == FIRST_THUNK <==> Reaches32(mem, PAGE_SIZE * page + o, FIRST_THUNK))
    ensures Reaches32(mem, PAGE_SIZE * page + o, FIRST_THUNK) ==>
              forall s: State, env: Env ::
                Ready(s, states[1].mem, page, o) && CallIsClean(s, env, pointer, FIRST_THUNK) ==>
                  Steps(s, Returned(s, env, pointer, FIRST_THUNK), env, 4)
  {
    hide Initial, Applied, Affordable, Locate, Memo, Reserved, Returned, CallIsClean, Steps, Succeeds, ParseAll,
      Serialise;
    hide Code8, Reaches32, Step.Step;
    var st := OneImport(pages, mem, pointer, page);
    Packs(pages);
    PackedRequest(pages, 16, page, 1, extra, page);
    OneCallParses(o);
    ReadyForThunk(pages, mem, pointer, extra, page, o);
    states, values := PageRunExists(st, [OneCall(o)], PAGE_SIZE * page, extra);
    FirstValue(st, states, values, extra, page, o);
    OneSite(values[0], page, o);
    AppliedLength(states, values, extra, page, o);
    forall s: State, env: Env | Ready(s, states[1].mem, page, o)
      ensures Step.Step(s, env).Ok?
      ensures Step.Step(s, env).value.eip == FIRST_THUNK <==> Reaches32(mem, PAGE_SIZE * page + o, FIRST_THUNK)
    {
      CallByteKept(st, states, values, extra, page, o, s);
      CallGoesToThunk(st.tables, states, [OneCall(o)], values, PAGE_SIZE * page, extra, page, page + 1, 0, o, s, env);
    }
    forall s: State, env: Env | Reaches32(mem, PAGE_SIZE * page + o, FIRST_THUNK) && Ready(s, states[1].mem, page, o)
                                && CallIsClean(s, env, pointer, FIRST_THUNK)
      ensures Steps(s, Returned(s, env, pointer, FIRST_THUNK), env, 4)
    {
      CallByteKept(st, states, values, extra, page, o, s);
      PatchedCallReturns(st.tables, states, [OneCall(o)], values, PAGE_SIZE * page, extra, page, page + 1, 0, o,
        Word(0, 6), s, env);
    }
  }

  lemma Packs(pages: seq<bool>)
    requires Initial(pages)
    ensures Packed(pages, 16)
  {
  }

  /** The record's one patch is the displacement. */
  lemma OneSite(value: u32, page: nat, o: u16)
    requires 16 <= page < THUNK_BASE && 1 <= o && o + 4 <= PAGE_SIZE
    ensures PageIn([OneCall(o)], PAGE_SIZE * page, page, page + 1)
    ensures PageWrites([OneCall(o)], [value], PAGE_SIZE * page) ==
        [SourceWrite([OneCall(o)], [value], PAGE_SIZE * page, 0, o)]
    ensures ClearSite(PageWrites([OneCall(o)], [value], PAGE_SIZE * page),
        SourceWrite([OneCall(o)], [value], PAGE_SIZE * page, 0, o), 4)
  {
    hide SiteWrite;
    WrapSmall(value);
    assert [OneCall(o)][..0] == [] && [value][..0] == [];
    assert RecordWrites(OneCall(o), value, PAGE_SIZE * page) == [SiteWrite(SELF_RELATIVE, value, PAGE_SIZE * page, o)];
  }

  lemma FirstValue(st: Loader, states: seq<Loader>, values: seq<u32>, extra: nat, page: nat, o: u16)
    requires page < THUNK_BASE && Sized(st) && Applied(states, [OneCall(o)], values, PAGE_SIZE * page, extra)
        && states[0] == st
    requires Locate(st, 1, 5) == Word(0, 6) && 0 < st.tables[0][6] < TAG
    requires forall p: nat :: Succeeds(st.pages, THUNK_BASE, 1, extra, p) <==> p == THUNK_BASE
    ensures values == [FIRST_THUNK]
  {
    hide Locate, Succeeds, Patched;
    var call := OneCall(o);
    assert RecordDone(states[0], [call][0], PAGE_SIZE * page, extra, values[0], states[1]);
    var mid :| Resolves(st, call.target, extra, values[0], mid)
      && Patched(mid, call, PAGE_SIZE * page, values[0], states[1]);
    assert ModuleOf(call.target) == 1 && call.target.importId.Value() == 5;
  }

  /** The opcode byte before the patch stays. */
  lemma CallByteKept(st: Loader, states: seq<Loader>, values: seq<u32>, extra: nat, page: nat, o: u16, s: State)
    requires 16 <= page < THUNK_BASE && 1 <= o && o + 4 <= PAGE_SIZE
    requires Sized(st) && Applied(states, [OneCall(o)], values, PAGE_SIZE * page, extra) && states[0] == st
        && values == [FIRST_THUNK]
    requires Memo(st.tables, st) && Reserved(st.tables, st, page, page + 1) && st.mem[PAGE_SIZE * page + o - 1] == 0xE8
    requires |states| == 2 && Ready(s, states[1].mem, page, o)
    ensures Code8(s) == 0xE8
  {
    hide Applied, Memo, Reserved, PageWrites, Answered, SiteWrite, PerformAll;
    var w := SourceWrite([OneCall(o)], values, PAGE_SIZE * page, 0, o);
    OneSite(FIRST_THUNK, page, o);
    AppliedLength(states, values, extra, page, o);
    PageDone(st.tables, states, [OneCall(o)], values, PAGE_SIZE * page, extra, page, page + 1);
    SiteShape(SELF_RELATIVE, SourceValue([OneCall(o)], values, 0), PAGE_SIZE * page, o);
    OnlyWrittenBytesChange(st.mem, [w], PAGE_SIZE * page + o - 1);
    WrapSmall(s.eip);
  }

  lemma AppliedLength(states: seq<Loader>, values: seq<u32>, extra: nat, page: nat, o: u16)
    requires page < THUNK_BASE && Applied(states, [OneCall(o)], values, PAGE_SIZE * page, extra)
    ensures |states| == 2 && |values| == 1
  {
  }

  lemma OneCallParses(o: u16)
    ensures WellFormed(OneCall(o))
    ensures ParseAll(Serialise(OneCall(o)), 0, |Serialise(OneCall(o))|) == Stream([OneCall(o)], |Serialise(OneCall(o))|)
  {
    hide Serialise, ParseAll;
    assert SerialiseAll([OneCall(o)]) == Serialise(OneCall(o)) + SerialiseAll([]) == Serialise(OneCall(o));
    StreamParsesBack(Serialise(OneCall(o)), 0, [OneCall(o)]);
  }

  lemma ReadyForThunk(pages: seq<bool>, mem: seq<u8>, pointer: u32, extra: nat, page: nat, o: u16)
    requires Placed(pages, mem, pointer, extra, page, o)
    ensures var st := OneImport(pages, mem, pointer, page);
            && Sized(st) && Memo(st.tables, st) && Reserved(st.tables, st, page, page + 1)
            && Affordable(st, RecordAsks([OneCall(o)])) && Locate(st, 1, 5) == Word(0, 6)
            && forall p: nat :: Succeeds(st.pages, THUNK_BASE, 1, extra, p) <==> p == THUNK_BASE
  {
    hide Succeeds;
    var st := OneImport(pages, mem, pointer, page);
    assert st.tables[0] == [6, 0, 0, 0, 0, 0, pointer];
    FreshMemo(st);
    FirstThunkPage(pages, page, extra);
    OneCallAsks(o);
    WordsAtMost(st, RecordAsks([OneCall(o)]));
    SubsetSize({THUNK_BASE}, Spare(st.pages));
  }

  lemma FirstThunkPage(pages: seq<bool>, page: nat, extra: nat)
    requires extra <= 1 && Initial(pages) && TakenBehind(pages, OWN_PAGES) && page < THUNK_BASE
    ensures THUNK_BASE in Spare(Marked(pages, page, 1))
    ensures forall p: nat :: Succeeds(Marked(pages, page, 1), THUNK_BASE, 1, extra, p) <==> p == THUNK_BASE
  {
    hide NeverSpins, Fits;
    var after := Marked(pages, page, 1);
    var t: nat :| OWN_PAGES <= t < |pages| && pages[t];
    assert after[t] && !after[THUNK_BASE];
    assert IsSpare(after, THUNK_BASE) && LeastFree(after, THUNK_BASE, THUNK_BASE);
    FoundForThunk(after, extra, THUNK_BASE, THUNK_BASE);
  }

  lemma OneCallAsks(o: u16)
    ensures RecordAsks([OneCall(o)]) == [Ask(1, 5)]
  {
    assert [OneCall(o)][1..] == [];
  }

  /** There are such processors and hosts: a stack at 128 KB and a host function that stores nothing. */
  lemma CleanCallExists(m: Memory, pointer: u32, page: nat, o: u16) returns (s: State, env: Env)
    requires |m| == BUS32 + SLACK && 16 <= page < THUNK_BASE && 1 <= o && o + 4 <= PAGE_SIZE
    ensures Ready(s, m, page, o) && CallIsClean(s, env, pointer, FIRST_THUNK)
  {
    var regs: Regs := seq(8, i => 0x2_0000);
    var segs: Segs := seq(6, i => Seg(0, 0, true));
    s := State(regs, PAGE_SIZE * page + o - 1, 0, seq(32, i => false), segs, seq(9, i => 0), false, false, false, DS, 0,
      m);
    env := Env((p: u32, a: u32, mem: Memory) => HostResult(0, map[]), (port: u16) => 0);
  }

  /** The program whose call is not patched: its object is page 7FFh and the displacement the page's last four bytes, so
      that the thunk is the very next instruction. With anything but zero in the file, the call goes past the thunk. */
  lemma NextInstructionUnpatched(pages: seq<bool>, mem: seq<u8>, pointer: u32, extra: nat)
      returns (states: seq<Loader>, values: seq<u32>)
    requires Placed(pages, mem, pointer, extra, 0x7FF, 0xFFC) && Read32(mem, 0x7F_FFFC) != 0
    ensures Applied(states, [OneCall(0xFFC)], values, 0x7F_F000, extra)
        && states[0] == OneImport(pages, mem, pointer, 0x7FF)
    ensures values == [FIRST_THUNK]
    ensures forall s: State, env: Env :: Ready(s, states[1].mem, 0x7FF, 0xFFC) ==>
              Step.Step(s, env).Ok? && Step.Step(s, env).value.eip != FIRST_THUNK
  {
    hide Placed, Applied, Steps, Step.Step, Read32, Returned, CallIsClean, ParseAll, Serialise;
    states, values := FirstImportCall(pages, mem, pointer, extra, 0x7FF, 0xFFC);
    WrapSmall(0x80_0000);
  }
}
