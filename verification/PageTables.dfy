/** The fixup page table of an object with several pages: which page is given its own records. */
module PageTables {
  import opened Words
  import opened Machine
  import opened Thunks
  import opened Fixups

  ghost predicate AllWellFormed(rs: seq<Record>) { forall i :: 0 <= i < |rs| ==> WellFormed(rs[i]) }

  ghost predicate PagesWellFormed(pages: seq<seq<Record>>) { forall k :: 0 <= k < |pages| ==> AllWellFormed(pages[k]) }

  /** The fixup record table: the pages' streams one after the other. */
  ghost function RecordTable(pages: seq<seq<Record>>): seq<u8>
    requires PagesWellFormed(pages)
  {
    if pages == [] then [] else SerialiseAll(pages[0]) + RecordTable(pages[1..])
  }

  /** The fixup page table gives, for each page of an object and for the page behind it, where its stream begins; `base`
      is where the object's own streams begin. */
  ghost predicate HoldsPages(exe: seq<u8>, lx: Header, index: u32, base: u32, pages: seq<seq<Record>>)
  {
    && PagesWellFormed(pages) && index > 0 && lx.pageTable + 4 * (index as int + |pages|) <= |exe|
    && base + |RecordTable(pages)| < TWO32 && BytesAt(exe, lx.recordTable + base, RecordTable(pages))
    && forall k :: 0 <= k <= |pages| ==> EntryIs(exe, lx, index, k, base + |RecordTable(pages[..k])|)
  }

  ghost predicate EntryIs(exe: seq<u8>, lx: Header, index: u32, k: nat, offset: int)
  {
    && index > 0 && lx.pageTable + 4 * (index as int - 1 + k) + 4 <= |exe|
    && DwordAt(exe, lx.pageTable + 4 * (index as int - 1 + k)) == offset
  }

  lemma {:induction false} TableAppends(a: seq<seq<Record>>, b: seq<seq<Record>>)
    requires PagesWellFormed(a) && PagesWellFormed(b)
    ensures PagesWellFormed(a + b) && RecordTable(a + b) == RecordTable(a) + RecordTable(b)
    decreases a
  {
    hide SerialiseAll, AllWellFormed;
    if a == [] {
      assert a + b == b;
    } else {
      TableAppends(a[1..], b);
      assert (a + b)[1..] == a[1..] + b;
    }
  }

  lemma SinglePage(rs: seq<Record>)
    requires AllWellFormed(rs)
    ensures PagesWellFormed([rs]) && RecordTable([rs]) == SerialiseAll(rs)
  {
    hide SerialiseAll, AllWellFormed;
    assert [rs][1..] == [];
  }

  lemma TableSplits(pages: seq<seq<Record>>, k: nat)
    requires PagesWellFormed(pages) && k < |pages|
    ensures PagesWellFormed(pages[..k]) && PagesWellFormed(pages[..k + 1]) && PagesWellFormed(pages[k + 1..])
    ensures RecordTable(pages) == RecordTable(pages[..k]) + SerialiseAll(pages[k]) + RecordTable(pages[k + 1..])
    ensures RecordTable(pages[..k + 1]) == RecordTable(pages[..k]) + SerialiseAll(pages[k])
  {
    hide SerialiseAll, AllWellFormed, RecordTable;
    var (low, page, high) := (pages[..k], [pages[k]], pages[k + 1..]);
    SinglePage(pages[k]);
    TableAppends(low, page);
    TableAppends(low + page, high);
    assert pages[..k + 1] == low + page && pages == low + page + high;
  }

  /** A page's slice of the record table, found through its own entry, is its own stream. */
  lemma OwnBounds(exe: seq<u8>, lx: Header, index: u32, base: u32, pages: seq<seq<Record>>, k: nat)
    requires HoldsPages(exe, lx, index, base, pages) && k < |pages|
    ensures var (own, b) := (SerialiseAll(pages[k]), BoundsOf(exe, lx, index as int - 1 + k));
            b.Bounds? && b.end == b.start + |own| && BytesAt(exe, b.start, own)
  {
    hide SerialiseAll, Bytes32, BytesAt, RecordTable;
    TableSplits(pages, k);
    var (own, before) := (SerialiseAll(pages[k]), RecordTable(pages[..k]));
    var rest := RecordTable(pages[k + 1..]);
    assert EntryIs(exe, lx, index, k, base + |before|)
      && EntryIs(exe, lx, index, k + 1, base + |RecordTable(pages[..k + 1])|);
    SplitBytes(exe, lx.recordTable + base, before + own, rest);
    SplitBytes(exe, lx.recordTable + base, before, own);
    WrapSmall(|own|);
    assert lx.recordTable + base + |before| == lx.recordTable + (base + |before|);
  }

  /** Through its own entry each page would be given its own records. */
  lemma OwnRecords(exe: seq<u8>, lx: Header, index: u32, base: u32, pages: seq<seq<Record>>, k: nat)
    requires HoldsPages(exe, lx, index, base, pages) && k < |pages|
    ensures var b := BoundsOf(exe, lx, index as int - 1 + k);
        b.Bounds? && ParseAll(exe, b.start, b.end) == Stream(pages[k], b.end)
  {
    hide BoundsOf, ParseAll, SerialiseAll, BytesAt;
    OwnBounds(exe, lx, index, base, pages, k);
    assert AllWellFormed(pages[k]);
    StreamParsesBack(exe, BoundsOf(exe, lx, index as int - 1 + k).start, pages[k]);
  }

  /** Records and their bytes determine each other. */
  lemma SerialisedOnce(rs: seq<Record>, qs: seq<Record>)
    requires AllWellFormed(rs) && AllWellFormed(qs) && SerialiseAll(rs) == SerialiseAll(qs)
    ensures rs == qs
  {
    hide SerialiseAll, ParseAll;
    var bytes := SerialiseAll(rs);
    StreamParsesBack(bytes, 0, rs);
    StreamParsesBack(bytes, 0, qs);
  }

  /** As written every page of the object is given the first page's records; so page `k` is given its own exactly when
      its slice of the record table equals the first page's. */
  lemma GivenOwnRecords(exe: seq<u8>, lx: Header, index: u32, base: u32, pages: seq<seq<Record>>, k: nat)
    requires HoldsPages(exe, lx, index, base, pages) && k < |pages|
    ensures PageStream(exe, lx, index).Stream? && PageStream(exe, lx, index).records == pages[0]
    ensures PageStream(exe, lx, index).records == pages[k] <==> Slice(exe, lx, index, k) == Slice(exe, lx, index, 0)
  {
    hide BoundsOf, ParseAll, SerialiseAll;
    OwnRecords(exe, lx, index, base, pages, 0);
    SliceIs(exe, lx, index, base, pages, 0);
    SliceIs(exe, lx, index, base, pages, k);
    assert AllWellFormed(pages[0]) && AllWellFormed(pages[k]);
    if SerialiseAll(pages[k]) == SerialiseAll(pages[0]) { SerialisedOnce(pages[k], pages[0]); }
  }

  /** The bytes between a page's entry and the next. */
  function Slice(exe: seq<u8>, lx: Header, index: u32, k: nat): seq<u8>
  {
    match BoundsOf(exe, lx, index as int - 1 + k)
    case Bounds(start, end) => if end <= |exe| then exe[start..end] else []
    case NotInFile => []
  }

  lemma SliceIs(exe: seq<u8>, lx: Header, index: u32, base: u32, pages: seq<seq<Record>>, k: nat)
    requires HoldsPages(exe, lx, index, base, pages) && k < |pages|
    ensures AllWellFormed(pages[k]) && Slice(exe, lx, index, k) == SerialiseAll(pages[k])
  {
    hide BoundsOf, SerialiseAll;
    OwnBounds(exe, lx, index, base, pages, k);
  }

  /** A file whose only object has two pages, the first without records and the second with one. */
  function TwoPages(call: Record): seq<u8>
    requires WellFormed(call)
  {
    Little(0, 4) + Little(0, 4) + Little(|Serialise(call)|, 4) + Serialise(call)
  }

  const TwoPageHeader := Header(0, 12)

  lemma TwoPagesHeld(call: Record)
    requires WellFormed(call) && |Serialise(call)| < TWO16
    ensures HoldsPages(TwoPages(call), TwoPageHeader, 1, 0, [[], [call]])
  {
    hide Serialise, Little, WellFormed;
    var (exe, ser) := (TwoPages(call), Serialise(call));
    var pages: seq<seq<Record>> := [[], [call]];
    assert AllWellFormed([]) && AllWellFormed([call]);
    OneRecordStream(call);
    assert pages[..0] == [] && pages[..1] == [[]] && pages[..2] == pages;
    SinglePage([]);
    SinglePage([call]);
    TableAppends([[]], [[call]]);
    assert [[]] + [[call]] == pages;
    assert RecordTable(pages) == ser;
    TwoPagesEntries(call);
    forall k | 0 <= k <= 2 ensures EntryIs(exe, TwoPageHeader, 1, k, |RecordTable(pages[..k])|) {
    }
  }

  lemma OneRecordStream(call: Record)
    requires WellFormed(call)
    ensures SerialiseAll([call]) == Serialise(call) && SerialiseAll([]) == []
  {
    hide Serialise, WellFormed;
    assert [call][1..] == [];
  }

  lemma TwoPagesEntries(call: Record)
    requires WellFormed(call) && |Serialise(call)| < TWO16
    ensures BytesAt(TwoPages(call), 12, Serialise(call))
    ensures DwordAt(TwoPages(call), 0) == 0 && DwordAt(TwoPages(call), 4) == 0
        && DwordAt(TwoPages(call), 8) == |Serialise(call)|
  {
    hide Serialise, Little, DwordAt, WellFormed;
    var (exe, ser) := (TwoPages(call), Serialise(call));
    var (a, c) := (Little(0, 4), Little(|ser|, 4));
    assert BytesAt(exe, 0, exe);
    SplitBytes(exe, 0, a + a + c, ser);
    SplitBytes(exe, 0, a + a, c);
    SplitBytes(exe, 0, a, a);
    DwordReads(exe, 0, 0);
    DwordReads(exe, 4, 0);
    DwordReads(exe, 8, |ser|);
  }

  lemma DwordReads(exe: seq<u8>, pos: nat, v: u32)
    requires BytesAt(exe, pos, Little(v, 4))
    ensures pos + 4 <= |exe| && DwordAt(exe, pos) == v
  {
    NumReadsBack(exe, pos, Long(v));
  }

  /** There the second page is never patched: FixupPage reads no records for it. Whatever it is run on, its state is the
      one before, and the displacement of a call in that page stays what it is in the file. */
  lemma SecondPageUnpatched(call: Record, states: seq<Loader>, records: seq<Record>, values: seq<u32>, pDst: u32,
      extra: nat)
    requires WellFormed(call) && |Serialise(call)| < TWO16 && pDst + REACH <= BUS32
    requires records == PageStream(TwoPages(call), TwoPageHeader, 1).records
        && Applied(states, records, values, pDst, extra)
    ensures var own := BoundsOf(TwoPages(call), TwoPageHeader, 1);
            own.Bounds? && ParseAll(TwoPages(call), own.start, own.end) == Stream([call], own.end)
    ensures records == [] && states == [states[0]]
  {
    hide ParseAll, Serialise, TwoPages, RecordDone;
    TwoPagesHeld(call);
    GivenOwnRecords(TwoPages(call), TwoPageHeader, 1, 0, [[], [call]], 1);
    OwnRecords(TwoPages(call), TwoPageHeader, 1, 0, [[], [call]], 1);
  }
}
