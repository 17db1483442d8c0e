/** Import thunks, locutus/os2thunk.c: the machine code that reaches a host function and the table that remembers
    where each thunk was put. */
module Thunks {
  import opened Words
  import opened Machine
  import opened PageFrames

  const TAG := 0x8000_0000
  const PAGE_SIZE := 4096
  /** Pages below this number have addresses below the tag bit. */
  const MAX_PAGES := 0x8_0000
  /** Thunks are looked for from 8 MB on. */
  const THUNK_BASE := 0x800

  /** MOV EAX, pointer; INT 80h; RET. */
  function ThunkBytes(pointer: u32): seq<u8>
  {
    [0xB8, ByteOf(pointer, 0), ByteOf(pointer, 1), ByteOf(pointer, 2), ByteOf(pointer, 3), 0xCD, 0x80, 0xC3]
  }

  function PutBytes(m: seq<u8>, a: nat, bytes: seq<u8>): (r: seq<u8>)
    requires a + |bytes| <= |m|
    ensures |r| == |m|
    ensures forall i :: 0 <= i < |m| ==> r[i] == if a <= i < a + |bytes| then bytes[i - a] else m[i]
  {
    m[..a] + bytes + m[a + |bytes|..]
  }

  ghost predicate BytesAt(m: seq<u8>, a: nat, bytes: seq<u8>)
  {
    a + |bytes| <= |m| && forall k :: 0 <= k < |bytes| ==> m[a + k] == bytes[k]
  }

  /** An entry of ModuleThunkTable: a null pointer or one of the import tables. */
  datatype Slot = NoTable | Table(index: nat)

  /** What the loader works on. `moduleCount` is ModuleThunkTable[0] and `slots` the rest of it; word 0 of an import
      table is its number of entries; `pages` says which page frames are taken. */
  datatype Loader = Loader(moduleCount: u32, slots: seq<Slot>, tables: seq<seq<u32>>, mem: seq<u8>, pages: seq<bool>)

  ghost predicate Sized(st: Loader)
  {
    && |st.mem| == BUS32 + SLACK && |st.pages| <= MAX_PAGES
    && forall k :: 0 <= k < |st.slots| && st.slots[k].Table? ==> st.slots[k].index < |st.tables|
  }

  /** `LeavesReservation` is the store of a thunk behind the 512 MB that VMMInit reserves on the host: the pages of the
      bitmap's own words. */
  datatype Lookup = Address(address: u32) | AllocatorFails(scan: Scan) | LeavesReservation(page: nat) | BadPointer

  /** What a failed lookup has changed: the page it could not store to is marked. */
  ghost predicate Fails(st: Loader, r: Lookup, after: Loader)
  {
    match r
    case Address(_) => false
    case LeavesReservation(page) => page >= OWN_PAGES && after == st.(pages := Marked(st.pages, page, 1))
    case _ => after == st
  }

  /** A request's place in the tables: outside, unsupported or a table word. */
  datatype ImportWord = Rejected | Undefined | Word(table: nat, index: nat)

  function Locate(st: Loader, moduleId: u16, importId: u32): ImportWord
    requires Sized(st)
  {
    if moduleId > st.moduleCount then Rejected
    else if moduleId >= |st.slots| || st.slots[moduleId].NoTable? then Undefined
    else
      var t := st.slots[moduleId].index;
      if |st.tables[t]| == 0 then Undefined
      else if importId > st.tables[t][0] then Rejected
      else if importId + 1 >= |st.tables[t]| then Undefined
      else Word(t, importId + 1)
  }

  function SetWord(tables: seq<seq<u32>>, t: nat, k: nat, w: u32): seq<seq<u32>>
    requires t < |tables| && k < |tables[t]|
  {
    var row: seq<u32> := tables[t];
    var changed: seq<u32> := row[k := w];
    tables[t := changed]
  }

  /** GenerateThunk: one page from the allocator, holding the thunk. A null page yields address 0. */
  ghost predicate Generates(st: Loader, pointer: u32, page: nat, extra: nat, after: Loader)
    requires Sized(st)
  {
    && Succeeds(st.pages, THUNK_BASE, 1, extra, page) && page < OWN_PAGES
    && after == st.(pages := Marked(st.pages, page, 1), mem := PutBytes(st.mem, PAGE_SIZE * page, ThunkBytes(pointer)))
  }

  /** GetModuleProcAddrByOrdinal, when it returns an address. */
  ghost predicate Serves(st: Loader, moduleId: u16, importId: u32, extra: nat, address: u32, after: Loader)
    requires Sized(st)
  {
    match Locate(st, moduleId, importId)
    case Rejected => address == 0 && after == st
    case Undefined => false
    case Word(t, k) =>
      var w := st.tables[t][k];
      if w >= TAG then address == w - TAG && after == st
      else if w == 0 then address == 0 && after == st
      else
        exists page: nat, made :: Generates(st, w, page, extra, made) && address == PAGE_SIZE * page
          && after == made.(tables := SetWord(st.tables, t, k, TAG + PAGE_SIZE * page))
  }

  /** The request is for a word that still holds a host pointer. */
  ghost predicate NeedsThunk(st: Loader, moduleId: u16, importId: u32)
    requires Sized(st)
  {
    var p := Locate(st, moduleId, importId);
    p.Word? && 0 < st.tables[p.table][p.index] < TAG
  }

  // ----- When a page for a thunk is found -----

  /** The free pages from 8 MB up to 512 MB with a taken page somewhere behind: those thunks can still be given. */
  ghost function Spare(pages: seq<bool>): set<int>
  {
    set q | THUNK_BASE <= q < OWN_PAGES && q < |pages| && IsSpare(pages, q)
  }

  ghost predicate IsSpare(pages: seq<bool>, q: int)
    requires 0 <= q < |pages|
  {
    !pages[q] && TakenBehind(pages, q)
  }

  /** A page for a thunk is found exactly when there is a spare one. */
  lemma SpareDecides(pages: seq<bool>, extra: nat)
    requires extra <= 1
    ensures Spare(pages) != {} <==> exists p: nat :: Succeeds(pages, THUNK_BASE, 1, extra, p) && p < OWN_PAGES
  {
    if q :| q in Spare(pages) {
      var p := LeastFreeFrom(pages, THUNK_BASE, q);
      FoundForThunk(pages, extra, p, q);
    }
    forall p: nat | Succeeds(pages, THUNK_BASE, 1, extra, p) && p < OWN_PAGES ensures p in Spare(pages) {
      ThunkTakesSpare(pages, extra, p);
    }
  }

  lemma {:induction false} LeastFreeFrom(pages: seq<bool>, lo: nat, q: int) returns (p: nat)
    requires lo <= q < |pages| && !pages[q]
    ensures LeastFree(pages, lo, p) && p <= q
    decreases q - lo
  {
    if !pages[lo] { p := lo; } else { p := LeastFreeFrom(pages, lo + 1, q); }
  }

  lemma FoundForThunk(pages: seq<bool>, extra: nat, p: nat, q: int)
    requires extra <= 1 && LeastFree(pages, THUNK_BASE, p) && p <= q < |pages| && IsSpare(pages, q)
    ensures Succeeds(pages, THUNK_BASE, 1, extra, p)
  {
    hide Spins;
    AlignedNeverSpins(pages, THUNK_BASE);
    var t: nat :| q <= t < |pages| && pages[t];
    var e := LeastTaken(pages, p);
    assert FreeRun(pages, p, e);
  }

  /** The page a thunk is given was spare, and the others stay so. */
  lemma ThunkTakesSpare(pages: seq<bool>, extra: nat, p: nat)
    requires extra <= 1 && Succeeds(pages, THUNK_BASE, 1, extra, p) && p < OWN_PAGES
    ensures p in Spare(pages) && Spare(Marked(pages, p, 1)) == Spare(pages) - {p}
  {
    hide Spins;
    var after := Marked(pages, p, 1);
    var e: nat :| FreeRun(pages, p, e);
    forall q: nat | THUNK_BASE <= q < p ensures pages[q] {
      if !pages[q] { FreeBeforeFits(pages, q, p, e, extra); }
    }
    forall q | THUNK_BASE <= q < |pages| && q != p ensures IsSpare(after, q) <==> IsSpare(pages, q) {
      if t: nat :| q <= t < |pages| && after[t] { assert t == p ==> q <= p; }
      if t: nat :| q <= t < |pages| && pages[t] { assert after[t]; }
    }
  }

  lemma FreeBeforeFits(pages: seq<bool>, q: nat, p: nat, e: nat, extra: nat)
    requires q < p && FreeRun(pages, p, e) && !pages[q]
    ensures Fits(pages, q, 1, extra)
  {
    var f := LeastTaken(pages, q);
    assert FreeRun(pages, q, f);
  }

  class ThunkTable {
    const frames: FrameAllocator
    const memory: array<u8>
    var moduleCount: u32
    var slots: seq<Slot>
    var tables: seq<seq<u32>>

    ghost predicate Valid()
      reads this, frames
    {
      && frames.Valid() && WORD * frames.bitmap.Length <= MAX_PAGES && memory.Length == BUS32 + SLACK
      && forall k :: 0 <= k < |slots| && slots[k].Table? ==> slots[k].index < |tables|
    }

    ghost function State(): (st: Loader)
      reads this, frames, frames.bitmap, memory
      requires Valid()
      ensures Sized(st)
    {
      Loader(moduleCount, slots, tables, memory[..], frames.Pages())
    }

    constructor (frames: FrameAllocator, memory: array<u8>, moduleCount: u32, slots: seq<Slot>, tables: seq<seq<u32>>)
      requires frames.Valid() && WORD * frames.bitmap.Length <= MAX_PAGES && memory.Length == BUS32 + SLACK
      requires forall k :: 0 <= k < |slots| && slots[k].Table? ==> slots[k].index < |tables|
      ensures Valid() && this.frames == frames && this.memory == memory
      ensures State() == Loader(moduleCount, slots, tables, memory[..], frames.Pages())
    {
      this.frames, this.memory := frames, memory;
      this.moduleCount, this.slots, this.tables := moduleCount, slots, tables;
    }

    method GenerateThunk(pointer: u32) returns (r: Lookup, ghost page: nat)
      requires Valid()
      modifies memory, frames.bitmap
      ensures Valid()
      ensures r.Address? ==>
          Generates(old(State()), pointer, page, frames.Extra(), State()) && r.address == PAGE_SIZE * page
      ensures r.Address? <==> Spare(old(State().pages)) != {}
      ensures !r.Address? ==> !r.BadPointer? && Fails(old(State()), r, State())
      ensures tables == old(tables)
    {
      SpareDecides(State().pages, frames.Extra());
      var scan := frames.VMMAllocPages(THUNK_BASE, 1);
      page := 0;
      if !scan.Found? || scan.page == 0 { return AllocatorFails(scan), 0; }
      if scan.page >= OWN_PAGES { return LeavesReservation(scan.page), 0; }
      page := scan.page;
      WriteThunk(PAGE_SIZE * scan.page, pointer);
      r := Address(PAGE_SIZE * scan.page);
    }

    method WriteThunk(a: nat, pointer: u32)
      requires a + 8 <= memory.Length
      modifies memory
      ensures memory[..] == PutBytes(old(memory[..]), a, ThunkBytes(pointer))
    {
      ghost var before := memory[..];
      memory[a] := 0xB8;
      StorePointer(a + 1, pointer);
      memory[a + 5] := 0xCD;
      memory[a + 6] := 0x80;
      memory[a + 7] := 0xC3;
      assert memory[..] == PutBytes(before, a, ThunkBytes(pointer));
    }

    method StorePointer(a: nat, pointer: u32)
      requires a + 4 <= memory.Length
      modifies memory
      ensures forall i :: 0 <= i < memory.Length ==> memory[i] == if a <= i < a + 4 then ByteOf(pointer, i - a)
          else old(memory[i])
    {
      for k := 0 to 4
        invariant forall i :: 0 <= i < memory.Length ==> memory[i] == if a <= i < a + k then ByteOf(pointer, i - a)
            else old(memory[i])
      {
        memory[a + k] := ByteOf(pointer, k);
      }
    }

    /** The tagged address when the thunk exists, else a new thunk, remembered under the tag. */
    method GetModuleProcAddrByOrdinal(moduleId: u16, importId: u32) returns (r: Lookup)
      requires Valid()
      modifies this, memory, frames.bitmap
      ensures Valid()
      ensures r.Address? ==> Serves(old(State()), moduleId, importId, frames.Extra(), r.address, State())
      ensures r.BadPointer? <==> Locate(old(State()), moduleId, importId).Undefined?
      ensures r.AllocatorFails? || r.LeavesReservation? <==>
          NeedsThunk(old(State()), moduleId, importId) && Spare(old(State().pages)) == {}
      ensures !r.Address? ==> Fails(old(State()), r, State())
    {
      if moduleId > moduleCount { return Address(0); }
      if moduleId >= |slots| || slots[moduleId].NoTable? { return BadPointer; }
      var t := slots[moduleId].index;
      if |tables[t]| == 0 { return BadPointer; }
      if importId > tables[t][0] { return Address(0); }
      if importId + 1 >= |tables[t]| { return BadPointer; }
      var w := tables[t][importId + 1];
      if w >= TAG { return Address(w - TAG); }
      if w == 0 { return Address(0); }
      ghost var page;
      r, page := GenerateThunk(w);
      if !r.Address? { return; }
      tables := SetWord(tables, t, importId + 1, TAG + r.address);
    }
  }

  // ----- The memo -----

  /** The words of an import table as the host program starts with them: no tag. */
  ghost predicate Untagged(tables: seq<seq<u32>>)
  {
    forall t, k :: 0 <= t < |tables| && 1 <= k < |tables[t]| ==> tables[t][k] < TAG
  }

  ghost predicate SameShape(orig: seq<seq<u32>>, tables: seq<seq<u32>>)
  {
    |orig| == |tables| && forall t :: 0 <= t < |orig| ==> |orig[t]| == |tables[t]|
  }

  predicate IsWord(tables: seq<seq<u32>>, t: int, k: int) { 0 <= t < |tables| && 1 <= k < |tables[t]| }

  /** Word (t, k) has been replaced by the tagged address of a page that is taken and holds the thunk for the host
      pointer it started as. */
  ghost predicate Mapped(orig: seq<seq<u32>>, st: Loader, t: int, k: int)
    requires SameShape(orig, st.tables) && IsWord(orig, t, k)
  {
    var w := st.tables[t][k];
    && w >= TAG && orig[t][k] != 0 && (w - TAG) % PAGE_SIZE == 0
    && THUNK_BASE <= (w - TAG) / PAGE_SIZE < |st.pages| && st.pages[(w - TAG) / PAGE_SIZE]
    && BytesAt(st.mem, w - TAG, ThunkBytes(orig[t][k]))
  }

  /** No two words hold the same tagged address. */
  ghost predicate Injective(tables: seq<seq<u32>>)
  {
    forall t, k, t', k' ::
      IsWord(tables, t, k) && IsWord(tables, t', k') && tables[t][k] >= TAG && tables[t][k] == tables[t'][k'] ==>
        t == t' && k == k'
  }

  /** Every word is still the zero or host pointer it started as, or is mapped; no two share a page. */
  ghost predicate Memo(orig: seq<seq<u32>>, st: Loader)
  {
    && Sized(st) && Untagged(orig) && SameShape(orig, st.tables) && Injective(st.tables)
    && forall t, k :: IsWord(orig, t, k) ==> st.tables[t][k] == orig[t][k] || Mapped(orig, st, t, k)
  }

  lemma FreshMemo(st: Loader)
    requires Sized(st) && Untagged(st.tables)
    ensures Memo(st.tables, st)
  {
  }

  /** A thunk put on a free page leaves the mapped words mapped. */
  lemma MappedStaysMapped(orig: seq<seq<u32>>, st: Loader, page: nat, pointer: u32, after: Loader, t: nat, k: nat)
    requires Sized(st) && SameShape(orig, st.tables) && SameShape(orig, after.tables)
    requires IsWord(orig, t, k) && Mapped(orig, st, t, k) && after.tables[t][k] == st.tables[t][k]
    requires page < |st.pages| && !st.pages[page] && after.pages == Marked(st.pages, page, 1)
    requires after.mem == PutBytes(st.mem, PAGE_SIZE * page, ThunkBytes(pointer))
    ensures Mapped(orig, after, t, k) && st.tables[t][k] != TAG + PAGE_SIZE * page
  {
    var a := st.tables[t][k] - TAG;
    var q := a / PAGE_SIZE;
    assert q != page && a == PAGE_SIZE * q;
    var bytes := ThunkBytes(orig[t][k]);
    forall i | 0 <= i < |bytes| ensures after.mem[a + i] == bytes[i] {
      assert st.mem[a + i] == bytes[i];
    }
  }

  /** A request keeps the memo, never changes a mapped word, and answers with what its word then records. */
  lemma ServingKeepsMemo(orig: seq<seq<u32>>, st: Loader, moduleId: u16, importId: u32, extra: nat, address: u32,
      after: Loader)
    requires Memo(orig, st) && Serves(st, moduleId, importId, extra, address, after)
    ensures Memo(orig, after) && after.slots == st.slots && after.moduleCount == st.moduleCount
    ensures forall t, k :: IsWord(orig, t, k) && st.tables[t][k] >= TAG ==> after.tables[t][k] == st.tables[t][k]
    ensures forall t :: 0 <= t < |orig| && |orig[t]| > 0 ==> after.tables[t][0] == st.tables[t][0]
    ensures Answers(orig, after, Locate(st, moduleId, importId), address)
  {
    var p := Locate(st, moduleId, importId);
    if p.Word? && 0 < st.tables[p.table][p.index] < TAG {
      var w := st.tables[p.table][p.index];
      var page: nat, made :| Generates(st, w, page, extra, made) && address == PAGE_SIZE * page
        && after == made.(tables := SetWord(st.tables, p.table, p.index, TAG + PAGE_SIZE * page));
      MappingKeepsMemo(orig, st, p.table, p.index, page, after);
    }
  }

  /** What a request is answered with: the address its word records, or 0 when it has none. */
  ghost predicate Answers(orig: seq<seq<u32>>, after: Loader, p: ImportWord, address: u32)
    requires SameShape(orig, after.tables)
  {
    match p
    case Rejected => address == 0
    case Undefined => false
    case Word(t, k) =>
      && IsWord(orig, t, k)
      && if orig[t][k] == 0 then address == 0 else Mapped(orig, after, t, k) && after.tables[t][k] == TAG + address
  }

  lemma MappingKeepsMemo(orig: seq<seq<u32>>, st: Loader, t: nat, k: nat, page: nat, after: Loader)
    requires Memo(orig, st) && IsWord(orig, t, k) && 0 < st.tables[t][k] < TAG
    requires THUNK_BASE <= page < |st.pages| && !st.pages[page]
    requires after == st.(tables := SetWord(st.tables, t, k, TAG + PAGE_SIZE * page),
                          pages := Marked(st.pages, page, 1),
                          mem := PutBytes(st.mem, PAGE_SIZE * page, ThunkBytes(st.tables[t][k])))
    ensures Memo(orig, after) && Mapped(orig, after, t, k)
  {
    assert SameShape(orig, after.tables) by { assert |after.tables[t]| == |st.tables[t]|; }
    forall t', k' | IsWord(orig, t', k') && (t' != t || k' != k)
      ensures after.tables[t'][k'] == st.tables[t'][k']
      ensures after.tables[t'][k'] == orig[t'][k'] || Mapped(orig, after, t', k')
      ensures st.tables[t'][k'] != TAG + PAGE_SIZE * page
    {
      if st.tables[t'][k'] != orig[t'][k'] {
        MappedStaysMapped(orig, st, page, st.tables[t][k], after, t', k');
      }
    }
    assert Mapped(orig, after, t, k) by { NewlyMapped(orig, st, t, k, page, after); }
    assert Injective(after.tables);
  }

  lemma NewlyMapped(orig: seq<seq<u32>>, st: Loader, t: nat, k: nat, page: nat, after: Loader)
    requires Memo(orig, st) && IsWord(orig, t, k) && 0 < st.tables[t][k] < TAG
    requires THUNK_BASE <= page < |st.pages| && SameShape(orig, after.tables)
    requires after == st.(tables := SetWord(st.tables, t, k, TAG + PAGE_SIZE * page),
                          pages := Marked(st.pages, page, 1),
                          mem := PutBytes(st.mem, PAGE_SIZE * page, ThunkBytes(st.tables[t][k])))
    ensures Mapped(orig, after, t, k)
  {
    assert orig[t][k] == st.tables[t][k];
    assert after.tables[t][k] == TAG + PAGE_SIZE * page;
    var bytes := ThunkBytes(orig[t][k]);
    forall i | 0 <= i < |bytes| ensures after.mem[PAGE_SIZE * page + i] == bytes[i] {
    }
  }

  // ----- Sequences of requests -----

  datatype Request = Request(moduleId: u16, importId: u32, address: u32)

  /** A run of requests that were answered: the loader's state before and after each. */
  ghost predicate Session(orig: seq<seq<u32>>, states: seq<Loader>, requests: seq<Request>, extra: nat)
  {
    && |states| == |requests| + 1 && Memo(orig, states[0])
    && (forall i :: 0 <= i < |states| ==> Sized(states[i]))
    && forall i {:trigger requests[i]} :: 0 <= i < |requests| ==>
      Serves(states[i], requests[i].moduleId, requests[i].importId, extra, requests[i].address, states[i + 1])
  }

  /** Along a session the memo holds, requests keep their place, and mapped words never change. */
  lemma {:induction false} SessionKeeps(orig: seq<seq<u32>>, states: seq<Loader>, requests: seq<Request>, extra: nat,
      i: nat, j: nat)
    requires Session(orig, states, requests, extra) && i <= j < |states| && Memo(orig, states[i])
    ensures Memo(orig, states[j])
    ensures forall t, k :: IsWord(orig, t, k) && states[i].tables[t][k] >= TAG ==>
        states[j].tables[t][k] == states[i].tables[t][k]
    ensures forall m: u16, o: u32 :: Locate(states[j], m, o) == Locate(states[i], m, o)
    decreases j - i
  {
    if i < j {
      var r := requests[i];
      ServingKeepsMemo(orig, states[i], r.moduleId, r.importId, extra, r.address, states[i + 1]);
      SessionKeeps(orig, states, requests, extra, i + 1, j);
    }
  }

  /** At the end of the session, the word of an answered request still records the address it was given. */
  lemma RecordedAtTheEnd(orig: seq<seq<u32>>, states: seq<Loader>, requests: seq<Request>, extra: nat, i: nat)
    requires Session(orig, states, requests, extra) && i < |requests| && requests[i].address != 0
    ensures Memo(orig, states[|requests|])
    ensures Locate(states[0], requests[i].moduleId, requests[i].importId).Word?
    ensures var p := Locate(states[0], requests[i].moduleId, requests[i].importId);
            && IsWord(orig, p.table, p.index) && Mapped(orig, states[|requests|], p.table, p.index)
            && states[|requests|].tables[p.table][p.index] == TAG + requests[i].address
  {
    hide Mapped, Locate, Serves, Memo;
    var r := requests[i];
    SessionKeeps(orig, states, requests, extra, 0, i);
    ServingKeepsMemo(orig, states[i], r.moduleId, r.importId, extra, r.address, states[i + 1]);
    SessionKeeps(orig, states, requests, extra, i + 1, |requests|);
    MemoGives(orig, states[i + 1], Locate(states[0], r.moduleId, r.importId));
    MemoGives(orig, states[|requests|], Locate(states[0], r.moduleId, r.importId));
  }

  lemma MemoGives(orig: seq<seq<u32>>, st: Loader, p: ImportWord)
    requires Memo(orig, st)
    ensures Untagged(orig) && SameShape(orig, st.tables)
    ensures p.Word? && IsWord(orig, p.table, p.index) && st.tables[p.table][p.index] >= TAG ==>
        Mapped(orig, st, p.table, p.index)
    ensures p.Word? && IsWord(orig, p.table, p.index) && Mapped(orig, st, p.table, p.index) ==>
        st.tables[p.table][p.index] >= TAG
  {
  }

  /** The memo theorem: two answered requests for supported imports get the same address exactly when they ask for the
      same table word, and at the end of the session every address still holds the thunk for its own host pointer. */
  lemma ThunksAreMemoised(orig: seq<seq<u32>>, states: seq<Loader>, requests: seq<Request>, extra: nat, i: nat, j: nat)
    requires Session(orig, states, requests, extra) && i < |requests| && j < |requests|
    requires requests[i].address != 0 && requests[j].address != 0
    ensures Locate(states[0], requests[i].moduleId, requests[i].importId).Word?
    ensures var p := Locate(states[0], requests[i].moduleId, requests[i].importId);
            && IsWord(orig, p.table, p.index) && requests[i].address % PAGE_SIZE == 0
            && BytesAt(states[|requests|].mem, requests[i].address, ThunkBytes(orig[p.table][p.index]))
    ensures requests[i].address == requests[j].address <==>
      Locate(states[0], requests[i].moduleId, requests[i].importId) ==
        Locate(states[0], requests[j].moduleId, requests[j].importId)
  {
    hide Locate, Serves, BytesAt;
    RecordedAtTheEnd(orig, states, requests, extra, i);
    RecordedAtTheEnd(orig, states, requests, extra, j);
  }

  /** A request is refused exactly when its place is outside the tables or its word is zero from the start. */
  lemma RefusedIffUnsupported(orig: seq<seq<u32>>, st: Loader, moduleId: u16, importId: u32, extra: nat, address: u32,
      after: Loader)
    requires Memo(orig, st) && Serves(st, moduleId, importId, extra, address, after)
    ensures var p := Locate(st, moduleId, importId);
            address == 0 <==> p.Rejected? || (p.Word? && IsWord(orig, p.table, p.index) && orig[p.table][p.index] == 0)
  {
    ServingKeepsMemo(orig, st, moduleId, importId, extra, address, after);
  }

  // ----- When a list of requests can be served -----

  datatype Ask = Ask(moduleId: u16, importId: u32)

  /** The words that a list of requests needs thunks for, each counted once. */
  ghost function NeededWords(st: Loader, asks: seq<Ask>): set<ImportWord>
    requires Sized(st)
  {
    set i | 0 <= i < |asks| && NeedsThunk(st, asks[i].moduleId, asks[i].importId) ::
      Locate(st, asks[i].moduleId, asks[i].importId)
  }

  ghost predicate AllDefined(st: Loader, asks: seq<Ask>)
    requires Sized(st)
  {
    forall i :: 0 <= i < |asks| ==> !Locate(st, asks[i].moduleId, asks[i].importId).Undefined?
  }

  /** No request reads through a null or short table, and there are spare pages for all the thunks needed. */
  ghost predicate Affordable(st: Loader, asks: seq<Ask>)
    requires Sized(st)
  {
    AllDefined(st, asks) && |NeededWords(st, asks)| <= |Spare(st.pages)|
  }

  lemma ServeOne(st: Loader, moduleId: u16, importId: u32, extra: nat) returns (address: u32, after: Loader)
    requires Sized(st) && extra <= 1 && !Locate(st, moduleId, importId).Undefined?
    requires NeedsThunk(st, moduleId, importId) ==> Spare(st.pages) != {}
    ensures Serves(st, moduleId, importId, extra, address, after)
  {
    var p := Locate(st, moduleId, importId);
    if NeedsThunk(st, moduleId, importId) {
      SpareDecides(st.pages, extra);
      var page: nat :| Succeeds(st.pages, THUNK_BASE, 1, extra, page) && page < OWN_PAGES;
      ThunkTakesSpare(st.pages, extra, page);
      var w := st.tables[p.table][p.index];
      var made := st.(pages := Marked(st.pages, page, 1), mem := PutBytes(st.mem, PAGE_SIZE * page, ThunkBytes(w)));
      assert Generates(st, w, page, extra, made);
      address := PAGE_SIZE * page;
      after := made.(tables := SetWord(st.tables, p.table, p.index, TAG + PAGE_SIZE * page));
    } else {
      address := if p.Word? && st.tables[p.table][p.index] >= TAG then st.tables[p.table][p.index] - TAG else 0;
      after := st;
    }
  }

  /** What a served request does to the requests that may follow. */
  lemma ServingLeaves(st: Loader, moduleId: u16, importId: u32, extra: nat, address: u32, after: Loader)
    requires Sized(st) && extra <= 1 && Serves(st, moduleId, importId, extra, address, after)
    ensures Sized(after) && forall m: u16, o: u32 :: Locate(after, m, o) == Locate(st, m, o)
    ensures forall m: u16, o: u32 :: NeedsThunk(after, m, o) <==>
              NeedsThunk(st, m, o) && Locate(st, m, o) != Locate(st, moduleId, importId)
    ensures if NeedsThunk(st, moduleId, importId)
        then Spare(st.pages) != {} && |Spare(after.pages)| == |Spare(st.pages)| - 1
        else after == st
  {
    hide Spare, NeverSpins;
    var p := Locate(st, moduleId, importId);
    if NeedsThunk(st, moduleId, importId) {
      var w := st.tables[p.table][p.index];
      var page: nat, made :| Generates(st, w, page, extra, made) && address == PAGE_SIZE * page && page < |st.pages|
        && after == made.(tables := SetWord(st.tables, p.table, p.index, TAG + PAGE_SIZE * page));
      ThunkTakesSpare(st.pages, extra, page);
      assert |after.tables[p.table]| == |st.tables[p.table]|;
    }
  }

  /** Serving the first request leaves the rest affordable exactly when the whole list was. */
  lemma AffordableStep(st: Loader, asks: seq<Ask>, extra: nat, address: u32, after: Loader)
    requires Sized(st) && extra <= 1 && asks != []
        && Serves(st, asks[0].moduleId, asks[0].importId, extra, address, after)
    ensures Sized(after) && (Affordable(st, asks) <==> Affordable(after, asks[1..]))
  {
    hide Serves, Locate, NeedsThunk, Spare;
    var (a, rest) := (asks[0], asks[1..]);
    ServingLeaves(st, a.moduleId, a.importId, extra, address, after);
    var p := Locate(st, a.moduleId, a.importId);
    NotUndefined(st, a.moduleId, a.importId, extra, address, after);
    assert AllDefined(st, asks) <==> AllDefined(after, rest) by {
      assert forall i :: 0 <= i < |rest| ==> rest[i] == asks[i + 1];
    }
    WordsLeft(st, asks, after, p);
  }

  lemma NotUndefined(st: Loader, moduleId: u16, importId: u32, extra: nat, address: u32, after: Loader)
    requires Sized(st) && Serves(st, moduleId, importId, extra, address, after)
    ensures !Locate(st, moduleId, importId).Undefined?
  {
  }

  lemma WordsLeft(st: Loader, asks: seq<Ask>, after: Loader, p: ImportWord)
    requires Sized(st) && Sized(after) && asks != [] && p == Locate(st, asks[0].moduleId, asks[0].importId)
    requires forall m: u16, o: u32 :: Locate(after, m, o) == Locate(st, m, o)
    requires forall m: u16, o: u32 :: NeedsThunk(after, m, o) <==> NeedsThunk(st, m, o) && Locate(st, m, o) != p
    ensures NeededWords(after, asks[1..]) == NeededWords(st, asks) - {p}
    ensures p in NeededWords(st, asks) <==> NeedsThunk(st, asks[0].moduleId, asks[0].importId)
  {
    var rest := asks[1..];
    var (now, later) := (NeededWords(st, asks), NeededWords(after, rest));
    forall i | 0 <= i < |asks| ensures NeedsThunk(st, asks[i].moduleId, asks[i].importId) <==>
      Locate(st, asks[i].moduleId, asks[i].importId) in now {
      forall j | 0 <= j < |asks| && Locate(st, asks[j].moduleId, asks[j].importId) ==
        Locate(st, asks[i].moduleId, asks[i].importId)
        ensures NeedsThunk(st, asks[j].moduleId, asks[j].importId) ==
            NeedsThunk(st, asks[i].moduleId, asks[i].importId) {
      }
    }
    hide Locate, NeedsThunk;
    forall q | q in now && q != p ensures q in later {
      var i :| 0 <= i < |asks| && NeedsThunk(st, asks[i].moduleId, asks[i].importId)
        && q == Locate(st, asks[i].moduleId, asks[i].importId);
      assert rest[i - 1] == asks[i];
    }
    forall q | q in later ensures q in now && q != p {
      var i :| 0 <= i < |rest| && NeedsThunk(after, rest[i].moduleId, rest[i].importId)
        && q == Locate(after, rest[i].moduleId, rest[i].importId);
      assert asks[i + 1] == rest[i];
    }
  }

  /** The first request of an affordable list can be served. */
  lemma FirstIsServed(st: Loader, asks: seq<Ask>)
    requires Sized(st) && asks != [] && Affordable(st, asks)
    ensures !Locate(st, asks[0].moduleId, asks[0].importId).Undefined?
    ensures NeedsThunk(st, asks[0].moduleId, asks[0].importId) ==> Spare(st.pages) != {}
  {
    hide Locate, NeedsThunk, Spare;
    var a := asks[0];
    if NeedsThunk(st, a.moduleId, a.importId) { assert Locate(st, a.moduleId, a.importId) in NeededWords(st, asks); }
  }

  function Asks(requests: seq<Request>): seq<Ask>
  {
    seq(|requests|, i requires 0 <= i < |requests| => Ask(requests[i].moduleId, requests[i].importId))
  }

  /** Every affordable list of requests is served, from any state of the memo. */
  lemma {:induction false} SessionExists(orig: seq<seq<u32>>, st: Loader, asks: seq<Ask>, extra: nat)
    returns (states: seq<Loader>, requests: seq<Request>)
    requires Memo(orig, st) && extra <= 1 && Affordable(st, asks)
    ensures Session(orig, states, requests, extra) && states[0] == st && Asks(requests) == asks
    decreases asks
  {
    hide Memo, Affordable, Serves, Sized, Locate, NeedsThunk;
    IsSized(orig, st);
    if asks == [] {
      states, requests := [st], [];
    } else {
      var a := asks[0];
      FirstIsServed(st, asks);
      var address, after := ServeOne(st, a.moduleId, a.importId, extra);
      ServingKeepsMemo(orig, st, a.moduleId, a.importId, extra, address, after);
      AffordableStep(st, asks, extra, address, after);
      var later, served := SessionExists(orig, after, asks[1..], extra);
      states, requests := [st] + later, [Request(a.moduleId, a.importId, address)] + served;
      forall i | 0 <= i < |requests|
        ensures Serves(states[i], requests[i].moduleId, requests[i].importId, extra, requests[i].address,
            states[i + 1]) {
        if i > 0 { assert Serves(later[i - 1], served[i - 1].moduleId, served[i - 1].importId, extra,
          served[i - 1].address, later[i]); }
      }
      assert forall i :: 0 < i < |asks| ==> Asks(served)[i - 1] == asks[1..][i - 1] == asks[i];
    }
  }

  lemma IsSized(orig: seq<seq<u32>>, st: Loader)
    requires Memo(orig, st)
    ensures Sized(st)
  {
  }

  /** And no other list is: the requests of a session are affordable. */
  lemma {:induction false} SessionIsAffordable(states: seq<Loader>, requests: seq<Request>, extra: nat)
    requires |states| == |requests| + 1 && extra <= 1 && forall i :: 0 <= i < |states| ==> Sized(states[i])
    requires forall i {:trigger requests[i]} :: 0 <= i < |requests| ==>
               Serves(states[i], requests[i].moduleId, requests[i].importId, extra, requests[i].address, states[i + 1])
    ensures Affordable(states[0], Asks(requests))
    decreases |requests|
  {
    hide Serves, Sized, Locate, NeedsThunk;
    if requests != [] {
      var (r, later, rest) := (requests[0], states[1..], requests[1..]);
      forall i | 0 <= i < |rest|
        ensures Serves(later[i], rest[i].moduleId, rest[i].importId, extra, rest[i].address, later[i + 1]) {
        assert requests[i + 1] == rest[i];
      }
      SessionIsAffordable(later, rest, extra);
      assert Asks(requests)[1..] == Asks(rest);
      AffordableStep(states[0], Asks(requests), extra, r.address, states[1]);
    }
  }

  /** After VMMInit and while the bitmap is packed, the pages for thunks are all those behind the packed ones, and none
      at all when no page behind the bitmap is taken. */
  lemma PackedSpare(pages: seq<bool>, s: nat)
    requires Packed(pages, s) && s <= OWN_PAGES
    ensures !TakenBehind(pages, OWN_PAGES) ==> Spare(pages) == {}
    ensures TakenBehind(pages, OWN_PAGES) ==> |Spare(pages)| >= OWN_PAGES - if s < THUNK_BASE then THUNK_BASE else s
  {
    if TakenBehind(pages, OWN_PAGES) {
      var lo := if s < THUNK_BASE then THUNK_BASE else s;
      var t: nat :| OWN_PAGES <= t < |pages| && pages[t];
      assert Interval(lo, OWN_PAGES) <= Spare(pages);
      SubsetSize(Interval(lo, OWN_PAGES), Spare(pages));
    }
  }

  ghost function Interval(lo: int, hi: int): (r: set<int>)
    requires lo <= hi
    ensures |r| == hi - lo && forall q :: q in r <==> lo <= q < hi
    decreases hi - lo
  {
    if lo == hi then {} else Interval(lo, hi - 1) + {hi - 1}
  }

  lemma {:induction false} SubsetSize<T>(a: set<T>, b: set<T>)
    requires a <= b
    ensures |a| <= |b|
    decreases |a|
  {
    if a != {} {
      var x :| x in a;
      assert a - {x} <= b - {x} && |b - {x}| == |b| - 1;
      SubsetSize(a - {x}, b - {x});
    }
  }

  /** From the start of the program, with untagged tables and some page behind the bitmap taken, every list of up to
      129024 defined requests is served. */
  lemma FirstSession(st: Loader, asks: seq<Ask>, extra: nat) returns (states: seq<Loader>, requests: seq<Request>)
    requires Sized(st) && Untagged(st.tables) && Initial(st.pages) && TakenBehind(st.pages, OWN_PAGES)
    requires extra <= 1 && AllDefined(st, asks) && |asks| <= OWN_PAGES - THUNK_BASE
    ensures Session(st.tables, states, requests, extra) && states[0] == st && Asks(requests) == asks
  {
    hide Spare, NeedsThunk, Locate, Untagged;
    FreshMemo(st);
    PackedSpare(st.pages, 16);
    WordsAtMost(st, asks);
    states, requests := SessionExists(st.tables, st, asks, extra);
  }

  lemma {:induction false} WordsAtMost(st: Loader, asks: seq<Ask>)
    requires Sized(st)
    ensures |NeededWords(st, asks)| <= |asks|
    decreases asks
  {
    hide NeedsThunk, Locate;
    if asks != [] {
      var (n, last) := (|asks| - 1, asks[|asks| - 1]);
      WordsAtMost(st, asks[..n]);
      var p := Locate(st, last.moduleId, last.importId);
      assert NeededWords(st, asks) <= NeededWords(st, asks[..n]) + {p};
      SubsetSize(NeededWords(st, asks), NeededWords(st, asks[..n]) + {p});
    }
  }
}
