/** Page fixups, FixupPage and doFixup in locutus/enterprs.c: a stream of variable-length records is parsed, imports
    are resolved, and bytes of the page are patched. */
module Fixups {
  import opened Words
  import opened Machine
  import PageFrames
  import opened Thunks

  // ----- Records and their bytes -----

  /** A number with the width it is stored in: none, one, two or four bytes. */
  datatype Num = Absent | Byte(b: u8) | Short(w: u16) | Long(d: u32) {
    function Value(): u32 { match this case Absent => 0 case Byte(b) => b case Short(w) => w case Long(d) => d }
    function Width(): nat { match this case Absent => 0 case Byte(_) => 1 case Short(_) => 2 case Long(_) => 4 }
  }

  datatype Source = Single(offset: u16) | List(offsets: seq<u16>)

  /** Internal: object number and offset in it. Ordinal: module number and ordinal. */
  datatype Target = Internal(objectId: Num, offset: Num) | Ordinal(moduleId: Num, importId: Num)

  type SourceKind = k: int | 0 <= k < 16

  const BYTE := 0
  const SELECTOR := 2
  const POINTER16 := 3
  const OFFSET16 := 5
  const POINTER32 := 6
  const OFFSET32 := 7
  const SELF_RELATIVE := 8

  datatype Record = Record(kind: SourceKind, toAlias: bool, source: Source, target: Target, additive: Num)

  /** The widths the format has for each field. */
  ghost predicate WellFormed(r: Record)
  {
    && (r.source.List? ==> |r.source.offsets| < TWO8)
    && (r.additive.Absent? || r.additive.Short? || r.additive.Long?)
    && match r.target
       case Internal(id, offset) =>
         (id.Byte? || id.Short?) && (if r.kind == SELECTOR then offset.Absent? else offset.Short? || offset.Long?)
       case Ordinal(id, ordinal) => (id.Byte? || id.Short?) && !ordinal.Absent?
  }

  function Little(v: u32, n: nat): (bytes: seq<u8>)
    requires n <= 4
    ensures |bytes| == n
  {
    seq(n, k requires 0 <= k < n => ByteOf(v, k))
  }

  function NumBytes(n: Num): (bytes: seq<u8>)
    ensures |bytes| == n.Width()
  {
    Little(n.Value(), n.Width())
  }

  function OffsetBytes(offsets: seq<u16>): (bytes: seq<u8>)
    ensures |bytes| == 2 * |offsets|
  {
    if offsets == [] then [] else Little(offsets[0], 2) + OffsetBytes(offsets[1..])
  }

  function Weighted(b: bool, weight: nat): nat { if b then weight else 0 }

  function SourceByte(r: Record): u8 { r.kind + Weighted(r.toAlias, 0x10) + Weighted(r.source.List?, 0x20) }

  function TargetId(t: Target): Num { if t.Internal? then t.objectId else t.moduleId }
  function TargetNumber(t: Target): Num { if t.Internal? then t.offset else t.importId }

  function FlagsByte(r: Record): u8
  {
    Weighted(r.target.Ordinal?, 1) + Weighted(!r.additive.Absent?, 4) + Weighted(TargetNumber(r.target).Long?, 0x10)
    + Weighted(r.additive.Long?, 0x20) + Weighted(TargetId(r.target).Short?, 0x40)
      + Weighted(TargetNumber(r.target).Byte?, 0x80)
  }

  /** What stands before the target: the one source offset, or the length of the list. */
  function SourceNum(s: Source): Num
    requires s.List? ==> |s.offsets| < TWO8
  {
    if s.Single? then Short(s.offset) else Byte(|s.offsets|)
  }

  function Serialise(r: Record): (bytes: seq<u8>)
    requires WellFormed(r)
    ensures |bytes| >= 4
  {
    [SourceByte(r), FlagsByte(r)] + NumBytes(SourceNum(r.source)) + NumBytes(TargetId(r.target))
    + NumBytes(TargetNumber(r.target)) + NumBytes(r.additive) + if r.source.List? then OffsetBytes(r.source.offsets)
      else []
  }

  function SerialiseAll(rs: seq<Record>): seq<u8>
    requires forall i :: 0 <= i < |rs| ==> WellFormed(rs[i])
  {
    if rs == [] then [] else Serialise(rs[0]) + SerialiseAll(rs[1..])
  }

  // ----- Parsing -----

  /** `Exits` is the exit(1) on import-by-name and entry-table records, `Overrun` a read past the file buffer. */
  datatype Parsed = Parsed(record: Record, next: nat) | Exits | Overrun

  function NumAt(exe: seq<u8>, pos: nat, width: nat): Num
    requires pos + width <= |exe| && width <= 4
  {
    if width == 0 then Absent
    else if width == 1 then Byte(exe[pos])
    else if width == 4 then Long(Bytes32(exe[pos], exe[pos + 1], exe[pos + 2], exe[pos + 3]))
    else Short(Bytes16(exe[pos], exe[pos + 1]))
  }

  function OffsetsAt(exe: seq<u8>, pos: nat, n: nat): (offsets: seq<u16>)
    requires pos + 2 * n <= |exe|
    ensures |offsets| == n
  {
    seq(n, k requires 0 <= k < n => Bytes16(exe[pos + 2 * k], exe[pos + 2 * k + 1]))
  }

  function KindOf(srcType: u8): SourceKind { srcType % 16 }
  function IsList(srcType: u8): bool { TestBit(srcType, 0x20) }
  function IdWidth(flags: u8): nat { if TestBit(flags, 0x40) then 2 else 1 }

  function NumberWidth(kind: SourceKind, flags: u8): nat
  {
    if flags % 4 == 0 && kind == SELECTOR then 0
    else if flags % 4 == 1 && TestBit(flags, 0x80) then 1
    else if TestBit(flags, 0x10) then 4
    else 2
  }

  function AdditiveWidth(flags: u8): nat
  {
    if !TestBit(flags, 4) then 0 else if TestBit(flags, 0x20) then 4 else 2
  }

  function ParseRecord(exe: seq<u8>, pos: nat): (r: Parsed)
    ensures r.Parsed? ==> pos < r.next <= |exe|
  {
    if pos + 2 > |exe| then Overrun
    else
      var (srcType, flags) := (exe[pos], exe[pos + 1]);
      var id := pos + 2 + if IsList(srcType) then 1 else 2;
      if id > |exe| then Overrun
      else if flags % 4 >= 2 then Exits
      else
        var number := id + IdWidth(flags);
        var additive := number + NumberWidth(KindOf(srcType), flags);
        var list := additive + AdditiveWidth(flags);
        var next := list + if IsList(srcType) then 2 * (exe[pos + 2] as int) else 0;
        if next > |exe| then Overrun
        else
          var source := if IsList(srcType) then List(OffsetsAt(exe, list, exe[pos + 2]))
                        else Single(Bytes16(exe[pos + 2], exe[pos + 3]));
          var (x, y) := (NumAt(exe, id, IdWidth(flags)), NumAt(exe, number, NumberWidth(KindOf(srcType), flags)));
          var target := if flags % 4 == 0 then Internal(x, y) else Ordinal(x, y);
          Parsed(Record(KindOf(srcType), TestBit(srcType, 0x10), source, target,
            NumAt(exe, additive, AdditiveWidth(flags))), next)
  }

  /** The records of a stream, up to its end or to the one that stops the parser. */
  datatype Stream = Stream(records: seq<Record>,
    stop: nat) | StreamExits(records: seq<Record>) | StreamOverrun(records: seq<Record>)

  function Prepend(rs: seq<Record>, s: Stream): Stream
  {
    match s
    case Stream(later, stop) => Stream(rs + later, stop)
    case StreamExits(later) => StreamExits(rs + later)
    case StreamOverrun(later) => StreamOverrun(rs + later)
  }

  /** The loop over a page's records: `end` is compared with before each record and not within one. */
  function ParseAll(exe: seq<u8>, pos: nat, end: nat): (s: Stream)
    ensures s.Stream? ==> s.stop >= end
    decreases if pos < end then end - pos else 0
  {
    if pos >= end then Stream([], pos)
    else
      match ParseRecord(exe, pos)
      case Parsed(r, next) => Prepend([r], ParseAll(exe, next, end))
      case Exits => StreamExits([])
      case Overrun => StreamOverrun([])
  }

  // ----- Serialised records parse back -----

  lemma NumReadsBack(exe: seq<u8>, pos: nat, n: Num)
    requires BytesAt(exe, pos, NumBytes(n))
    ensures pos + n.Width() <= |exe| && NumAt(exe, pos, n.Width()) == n
  {
    var v := n.Value();
    BytesOfWord(v);
    assert forall k :: 0 <= k < n.Width() ==> exe[pos + k] == NumBytes(n)[k] == ByteOf(v, k);
  }

  lemma {:induction false} OffsetsReadBack(exe: seq<u8>, pos: nat, offsets: seq<u16>)
    requires BytesAt(exe, pos, OffsetBytes(offsets))
    ensures pos + 2 * |offsets| <= |exe| && OffsetsAt(exe, pos, |offsets|) == offsets
    decreases offsets
  {
    if offsets != [] {
      var rest := OffsetBytes(offsets[1..]);
      SplitBytes(exe, pos, Little(offsets[0], 2), rest);
      OffsetsReadBack(exe, pos + 2, offsets[1..]);
      NumReadsBack(exe, pos, Short(offsets[0]));
      assert OffsetsAt(exe, pos, |offsets|) == [offsets[0]] + OffsetsAt(exe, pos + 2, |offsets[1..]|);
    }
  }

  lemma SplitBytes(exe: seq<u8>, pos: nat, a: seq<u8>, b: seq<u8>)
    requires BytesAt(exe, pos, a + b)
    ensures BytesAt(exe, pos, a) && BytesAt(exe, pos + |a|, b)
  {
    assert forall k :: 0 <= k < |a| ==> (a + b)[k] == a[k];
    forall k | 0 <= k < |b| ensures exe[pos + |a| + k] == b[k] {
      assert exe[pos + (|a| + k)] == (a + b)[|a| + k];
    }
  }

  lemma FlagBits(ordinal: bool, additive: bool, long: bool, longAdditive: bool, shortId: bool, byte: bool)
    ensures var f := Weighted(ordinal, 1) + Weighted(additive, 4) + Weighted(long, 0x10) + Weighted(longAdditive, 0x20)
        + Weighted(shortId, 0x40) + Weighted(byte, 0x80);
            && f % 4 == Weighted(ordinal, 1) && TestBit(f, 4) == additive && TestBit(f, 0x10) == long
            && TestBit(f, 0x20) == longAdditive && TestBit(f, 0x40) == shortId && TestBit(f, 0x80) == byte
  {
    hide TestBit;
    var (a, b, c, d, e) := (Weighted(ordinal, 1), Weighted(additive, 4), Weighted(long, 0x10),
      Weighted(longAdditive, 0x20), Weighted(shortId, 0x40));
    BitAt(a, additive, 4, 2 * Weighted(long, 1) + 4 * Weighted(longAdditive, 1) + 8 * Weighted(shortId, 1)
      + 0x10 * Weighted(byte, 1));
    BitAt(a + b, long, 0x10, Weighted(longAdditive, 1) + 2 * Weighted(shortId, 1) + 4 * Weighted(byte, 1));
    BitAt(a + b + c, longAdditive, 0x20, Weighted(shortId, 1) + 2 * Weighted(byte, 1));
    BitAt(a + b + c + d, shortId, 0x40, Weighted(byte, 1));
    BitAt(a + b + c + d + e, byte, 0x80, 0);
  }

  lemma BitAt(low: nat, b: bool, weight: nat, high: nat)
    requires low < weight
    ensures TestBit(low + Weighted(b, weight) + 2 * weight * high, weight) == b
  {
    DivModUnique(low + Weighted(b, weight) + 2 * weight * high, high, low + Weighted(b, weight), 2 * weight);
  }

  /** One record parses back, wherever it stands in the buffer. */
  lemma RecordParsesBack(exe: seq<u8>, pos: nat, r: Record)
    requires WellFormed(r) && BytesAt(exe, pos, Serialise(r))
    ensures ParseRecord(exe, pos) == Parsed(r, pos + |Serialise(r)|)
  {
    hide NumAt, OffsetsAt, TestBit, NumBytes, OffsetBytes, BytesAt, Bytes16;
    var (head, src, id, number, additive, list) :=
      ([SourceByte(r), FlagsByte(r)], NumBytes(SourceNum(r.source)), NumBytes(TargetId(r.target)),
       NumBytes(TargetNumber(r.target)), NumBytes(r.additive), if r.source.List? then OffsetBytes(r.source.offsets)
         else []);
    SplitBytes(exe, pos, head + src + id + number + additive, list);
    SplitBytes(exe, pos, head + src + id + number, additive);
    SplitBytes(exe, pos, head + src + id, number);
    SplitBytes(exe, pos, head + src, id);
    SplitBytes(exe, pos, head, src);
    HeadBytes(exe, pos, r);
    SourceReads(exe, pos + 2, r.source);
    NumReadsBack(exe, pos + 2 + |src|, TargetId(r.target));
    NumReadsBack(exe, pos + 2 + |src| + |id|, TargetNumber(r.target));
    NumReadsBack(exe, pos + 2 + |src| + |id| + |number|, r.additive);
    if r.source.List? {
      OffsetsReadBack(exe, pos + 2 + |src| + |id| + |number| + |additive|, r.source.offsets);
    }
  }

  lemma SourceReads(exe: seq<u8>, pos: nat, s: Source)
    requires s.List? ==> |s.offsets| < TWO8
    requires BytesAt(exe, pos, NumBytes(SourceNum(s)))
    ensures pos + |NumBytes(SourceNum(s))| <= |exe|
    ensures if s.Single? then Bytes16(exe[pos], exe[pos + 1]) == s.offset else exe[pos] == |s.offsets|
  {
    hide NumBytes, BytesAt;
    NumReadsBack(exe, pos, SourceNum(s));
  }

  lemma HeadBytes(exe: seq<u8>, pos: nat, r: Record)
    requires BytesAt(exe, pos, [SourceByte(r), FlagsByte(r)])
    ensures pos + 2 <= |exe| && exe[pos] == SourceByte(r) && exe[pos + 1] == FlagsByte(r)
    ensures KindOf(exe[pos]) == r.kind && TestBit(exe[pos], 0x10) == r.toAlias && IsList(exe[pos]) == r.source.List?
    ensures exe[pos + 1] % 4 == Weighted(r.target.Ordinal?, 1)
    ensures WellFormed(r) ==> IdWidth(exe[pos + 1]) == TargetId(r.target).Width()
    ensures WellFormed(r) ==> NumberWidth(r.kind, exe[pos + 1]) == TargetNumber(r.target).Width()
    ensures WellFormed(r) ==> AdditiveWidth(exe[pos + 1]) == r.additive.Width()
  {
    hide TestBit;
    var head := [SourceByte(r), FlagsByte(r)];
    assert exe[pos + 0] == head[0] && exe[pos + 1] == head[1];
    SourceBits(r.kind, r.toAlias, r.source.List?);
    FlagBits(r.target.Ordinal?, !r.additive.Absent?, TargetNumber(r.target).Long?, r.additive.Long?,
      TargetId(r.target).Short?,
             TargetNumber(r.target).Byte?);
  }

  lemma SourceBits(kind: SourceKind, toAlias: bool, list: bool)
    ensures var f := kind + Weighted(toAlias, 0x10) + Weighted(list, 0x20);
            f % 16 == kind && TestBit(f, 0x10) == toAlias && TestBit(f, 0x20) == list
  {
  }

  /** A stream of well-formed records parses back to exactly those records, and stops exactly at its end. */
  lemma {:induction false} StreamParsesBack(exe: seq<u8>, pos: nat, rs: seq<Record>)
    requires forall i :: 0 <= i < |rs| ==> WellFormed(rs[i])
    requires BytesAt(exe, pos, SerialiseAll(rs))
    ensures ParseAll(exe, pos, pos + |SerialiseAll(rs)|) == Stream(rs, pos + |SerialiseAll(rs)|)
    decreases rs
  {
    hide WellFormed, ParseRecord, Serialise;
    if rs != [] {
      var (first, rest) := (Serialise(rs[0]), SerialiseAll(rs[1..]));
      SplitBytes(exe, pos, first, rest);
      RecordParsesBack(exe, pos, rs[0]);
      StreamParsesBack(exe, pos + |first|, rs[1..]);
      assert pos + |first| + |rest| == pos + |SerialiseAll(rs)|;
      assert [rs[0]] + rs[1..] == rs;
    }
  }

  /** Whatever parses is well formed: the serialiser's records are exactly the parser's. */
  lemma ParsedIsWellFormed(exe: seq<u8>, pos: nat)
    requires ParseRecord(exe, pos).Parsed?
    ensures WellFormed(ParseRecord(exe, pos).record)
  {
    hide TestBit, Bytes16, Bytes32;
  }

  // ----- Patching -----

  /** Bytes to be stored from an address on. */
  datatype Write = Write(at: nat, bytes: seq<u8>)

  ghost predicate Inside(w: Write, size: nat) { w.at + |w.bytes| <= size }
  ghost predicate AllInside(ws: seq<Write>, size: nat) { forall w :: w in ws ==> Inside(w, size) }

  function Perform(m: seq<u8>, w: Write): (r: seq<u8>)
    requires Inside(w, |m|)
    ensures |r| == |m|
  {
    PutBytes(m, w.at, w.bytes)
  }

  ghost function PerformAll(m: seq<u8>, ws: seq<Write>): (r: seq<u8>)
    requires AllInside(ws, |m|)
    ensures |r| == |m|
    decreases |ws|
  {
    if ws == [] then m else PerformAll(Perform(m, ws[0]), ws[1..])
  }

  ghost predicate Touches(w: Write, i: int) { w.at <= i < w.at + |w.bytes| }

  ghost predicate Apart(v: Write, w: Write)
  {
    v.at + |v.bytes| <= w.at || w.at + |w.bytes| <= v.at || v.bytes == [] || w.bytes == []
  }

  /** Different writes have no byte in common; the same write may occur twice. */
  ghost predicate Disjoint(ws: seq<Write>)
  {
    forall v, w :: v in ws && w in ws && v != w ==> Apart(v, w)
  }

  /** Disjoint writes all land, and nothing else changes. */
  lemma {:induction false} DisjointWritesLand(m: seq<u8>, ws: seq<Write>)
    requires AllInside(ws, |m|) && Disjoint(ws)
    ensures forall w :: w in ws ==> BytesAt(PerformAll(m, ws), w.at, w.bytes)
    ensures forall i :: 0 <= i < |m| && (forall w :: w in ws ==> !Touches(w, i)) ==> PerformAll(m, ws)[i] == m[i]
    decreases |ws|
  {
    hide Perform, BytesAt, Apart, Touches;
    if ws != [] {
      var (first, rest) := (ws[0], ws[1..]);
      assert ws == [first] + rest;
      var m' := Perform(m, first);
      WriteLands(m, first);
      DisjointWritesLand(m', rest);
      forall w | w in ws ensures BytesAt(PerformAll(m', rest), w.at, w.bytes) {
        if w !in rest { Survives(m', PerformAll(m', rest), rest, w); }
      }
    }
  }

  lemma WriteLands(m: seq<u8>, w: Write)
    requires Inside(w, |m|)
    ensures BytesAt(Perform(m, w), w.at, w.bytes)
    ensures forall i :: 0 <= i < |m| && !Touches(w, i) ==> Perform(m, w)[i] == m[i]
  {
  }

  lemma Survives(m: seq<u8>, after: seq<u8>, rest: seq<Write>, w: Write)
    requires |after| == |m| && BytesAt(m, w.at, w.bytes) && forall v :: v in rest ==> Apart(v, w)
    requires forall i :: 0 <= i < |m| && (forall v :: v in rest ==> !Touches(v, i)) ==> after[i] == m[i]
    ensures BytesAt(after, w.at, w.bytes)
  {
    forall k | 0 <= k < |w.bytes| ensures after[w.at + k] == w.bytes[k] {
      assert forall v :: v in rest ==> !Touches(v, w.at + k);
    }
  }

  /** Disjoint writes may be performed in any order, and repeated. */
  lemma OrderDoesNotMatter(m: seq<u8>, ws: seq<Write>, vs: seq<Write>)
    requires AllInside(ws, |m|) && Disjoint(ws) && forall w :: w in ws <==> w in vs
    ensures AllInside(vs, |m|) && PerformAll(m, ws) == PerformAll(m, vs)
  {
    hide PerformAll, BytesAt;
    DisjointWritesLand(m, ws);
    DisjointWritesLand(m, vs);
    var (a, b) := (PerformAll(m, ws), PerformAll(m, vs));
    forall i: nat | i < |m| ensures a[i] == b[i] {
      if w :| w in ws && Touches(w, i) {
        ByteOfWrite(a, w, i);
        ByteOfWrite(b, w, i);
      }
    }
  }

  lemma ByteOfWrite(m: seq<u8>, w: Write, i: nat)
    requires BytesAt(m, w.at, w.bytes) && Touches(w, i)
    ensures i < |m| && m[i] == w.bytes[i - w.at]
  {
    assert m[w.at + (i - w.at)] == w.bytes[i - w.at];
  }

  lemma {:induction false} PerformAppend(m: seq<u8>, ws: seq<Write>, vs: seq<Write>)
    requires AllInside(ws, |m|) && AllInside(vs, |m|)
    ensures AllInside(ws + vs, |m|) && PerformAll(m, ws + vs) == PerformAll(PerformAll(m, ws), vs)
    decreases |ws|
  {
    if ws == [] {
      assert ws + vs == vs;
    } else {
      assert (ws + vs)[1..] == ws[1..] + vs;
      PerformAppend(Perform(m, ws[0]), ws[1..], vs);
    }
  }

  function SizeOf(kind: SourceKind): nat
  {
    match kind
    case 0 => 1
    case 2 | 5 => 2
    case 3 | 7 | 8 => 4
    case 6 => 6
    case _ => 0
  }

  /** doFixup's bytes: a zero value is skipped; a 16:32 pointer is stored selector first. */
  function FixupBytes(value: u32, selector: u16, size: nat): seq<u8>
  {
    if value == 0 then []
    else if size == 1 || size == 2 || size == 4 then Little(value, size)
    else if size == 6 then Little(selector, 2) + Little(value, 4)
    else []
  }

  /** The value stored at one source: relative to the end of the field for a self-relative fixup. */
  function SiteValue(kind: SourceKind, value: u32, site: nat): u32
  {
    if kind == SELF_RELATIVE then Wrap32(value - (site + 4)) else value
  }

  function SiteWrite(kind: SourceKind, value: u32, pDst: u32, offset: u16): Write
  {
    Write(pDst + offset, FixupBytes(SiteValue(kind, value, pDst + offset), 0, SizeOf(kind)))
  }

  function SiteWrites(kind: SourceKind, value: u32, pDst: u32, offsets: seq<u16>): (ws: seq<Write>)
    ensures |ws| == |offsets|
  {
    seq(|offsets|, i requires 0 <= i < |offsets| => SiteWrite(kind, value, pDst, offsets[i]))
  }

  function Offsets(s: Source): seq<u16> { if s.Single? then [s.offset] else s.offsets }

  /** The field at `a` holds the value of a fixup: truncated at the narrow sizes, after the selector at size 6, and as
      the distance from the end of the field if self-relative. */
  predicate FieldHolds(m: Memory, a: u32, kind: SourceKind, value: u32)
    requires a + 6 <= BUS32
  {
    match kind
    case 0 => Read8(m, a) == Wrap8(value)
    case 2 | 5 => Read16(m, a) == Wrap16(value)
    case 3 | 7 => Read32(m, a) == value
    case 6 => Read16(m, a) == 0 && Read32(m, a + 2) == value
    case 8 => Wrap32(a + 4 + Read32(m, a)) == value
    case _ => true
  }

  predicate FieldIsZero(m: Memory, a: u32, kind: SourceKind)
    requires |m| == BUS32 + SLACK && a + 6 <= BUS32
  {
    forall k :: a <= k < a + SizeOf(kind) ==> m[k] == 0
  }

  /** A fixup's field holds its value exactly when the value to be stored is not zero, for doFixup skips zero, or the
      field was zero before. */
  lemma SiteReadsBack(before: Memory, after: Memory, kind: SourceKind, value: u32, pDst: u32, offset: u16)
    requires |before| == |after| == BUS32 + SLACK && pDst + offset + 6 <= BUS32
    requires var w := SiteWrite(kind, value, pDst, offset); BytesAt(after, w.at, w.bytes)
    requires SiteValue(kind, value, pDst + offset) == 0 ==>
               forall k :: pDst + offset <= k < pDst + offset + SizeOf(kind) ==> after[k] == before[k]
    ensures FieldHolds(after, pDst + offset, kind, value)
       <==> SiteValue(kind, value, pDst + offset) != 0 || FieldIsZero(before, pDst + offset, kind)
  {
    var a := pDst + offset;
    if SiteValue(kind, value, a) == 0 {
      ZeroField(after, a, kind, value);
      assert FieldIsZero(after, a, kind) <==> FieldIsZero(before, a, kind);
    } else {
      StoredField(after, kind, value, pDst, offset);
    }
  }

  /** A value that is not stored is in the field exactly when the field is zero. */
  lemma ZeroField(m: Memory, a: u32, kind: SourceKind, value: u32)
    requires |m| == BUS32 + SLACK && a + 6 <= BUS32 && SiteValue(kind, value, a) == 0
    ensures FieldHolds(m, a, kind, value) <==> FieldIsZero(m, a, kind)
  {
    ZeroBytes(m, a);
    ZeroBytes(m, a + 2);
    if kind == SELF_RELATIVE {
      NextAddress(a + 4, value);
      NextAddress(a + 4, Wrap32(a + 4 + Read32(m, a)));
      SameTarget(a + 4, Read32(m, a), value);
    }
    hide Read16, Read32;
  }

  lemma ZeroBytes(m: Memory, a: u32)
    requires |m| == BUS32 + SLACK && a + 4 <= BUS32
    ensures Read8(m, a) == 0 <==> m[a] == 0
    ensures Read16(m, a) == 0 <==> m[a] == 0 && m[a + 1] == 0
    ensures Read32(m, a) == 0 <==> m[a] == 0 && m[a + 1] == 0 && m[a + 2] == 0 && m[a + 3] == 0
  {
  }

  lemma NextAddress(next: nat, value: u32)
    ensures Wrap32(value - next) == 0 <==> value == Wrap32(next)
  {
  }

  lemma SameTarget(next: nat, d: u32, value: u32)
    requires value == Wrap32(next)
    ensures Wrap32(next + d) == value <==> d == 0
  {
  }

  lemma StoredField(m: Memory, kind: SourceKind, value: u32, pDst: u32, offset: u16)
    requires |m| == BUS32 + SLACK && pDst + offset + 6 <= BUS32 && SiteValue(kind, value, pDst + offset) != 0
    requires var w := SiteWrite(kind, value, pDst, offset); BytesAt(m, w.at, w.bytes)
    ensures FieldHolds(m, pDst + offset, kind, value)
  {
    hide Little, BytesAt, Read8, Read16, Read32, Wrap8;
    var (a, v) := (pDst + offset, SiteValue(kind, value, pDst + offset));
    if kind == POINTER32 {
      SplitBytes(m, a, Little(0, 2), Little(v, 4));
      LittleReadsBack(m, a, 0, 2);
      LittleReadsBack(m, a + 2, v, 4);
    } else if SizeOf(kind) > 0 {
      LittleReadsBack(m, a, v, SizeOf(kind));
    }
    if kind == SELF_RELATIVE {
      WrapTwice(value - (a + 4), a + 4);
      WrapSmall(value);
    }
  }

  lemma LittleReadsBack(m: Memory, a: u32, v: u32, n: nat)
    requires n <= 4 && BytesAt(m, a, Little(v, n)) && |m| == BUS32 + SLACK
    ensures n == 1 ==> Read8(m, a) == Wrap8(v)
    ensures n == 2 ==> Read16(m, a) == Wrap16(v)
    ensures n == 4 ==> Read32(m, a) == v
  {
    hide ByteOf, Wrap8, Wrap16, Bytes16, Bytes32;
    BytesOfWord(v);
    WrapSmall(v);
    assert forall k :: 0 <= k < n ==> m[a + k] == Little(v, n)[k] == ByteOf(v, k);
    if n == 1 { assert m[a + 0] == ByteOf(v, 0); }
    if n == 2 { assert m[a + 0] == ByteOf(v, 0) && m[a + 1] == ByteOf(v, 1); }
    if n == 4 { assert m[a + 0] == ByteOf(v, 0) && m[a + 1] == ByteOf(v, 1) && m[a + 2] == ByteOf(v, 2)
      && m[a + 3] == ByteOf(v, 3); }
  }

  // ----- The loop over a page's records -----

  function ModuleOf(t: Target): u16 { Wrap16(TargetId(t).Value()) }

  /** An internal target contributes nothing; an ordinal is resolved through the thunk table. */
  ghost predicate Resolves(st: Loader, t: Target, extra: nat, value: u32, after: Loader)
    requires Sized(st)
  {
    if t.Internal? then value == 0 && after == st else Serves(st, ModuleOf(t), t.importId.Value(), extra, value, after)
  }

  /** The largest reach of one page's fixups: a 16-bit offset and a six-byte field. */
  const REACH := 0x1_0006

  ghost predicate RecordDone(st: Loader, r: Record, pDst: u32, extra: nat, value: u32, after: Loader)
    requires Sized(st) && pDst + REACH <= BUS32
  {
    exists mid :: Resolves(st, r.target, extra, value, mid) && Patched(mid, r, pDst, value, after)
  }

  /** A record's patches: the import address, if any, and the additive make up the value. */
  function RecordWrites(r: Record, value: u32, pDst: u32): seq<Write>
  {
    SiteWrites(r.kind, Wrap32(value + r.additive.Value()), pDst, Offsets(r.source))
  }

  ghost predicate Patched(mid: Loader, r: Record, pDst: u32, value: u32, after: Loader)
    requires pDst + REACH <= BUS32
  {
    && Sized(mid)
    && var ws := RecordWrites(r, value, pDst);
       AllInside(ws, |mid.mem|) && after == mid.(mem := PerformAll(mid.mem, ws))
  }

  /** The records have been applied one after the other; `values` are the import addresses they resolved to. */
  ghost predicate Applied(states: seq<Loader>, records: seq<Record>, values: seq<u32>, pDst: u32, extra: nat)
    requires pDst + REACH <= BUS32
  {
    && |states| == |records| + 1 && |values| == |records|
    && (forall i :: 0 <= i < |states| ==> Sized(states[i]))
    && forall i {:trigger records[i]} :: 0 <= i < |records| ==>
      RecordDone(states[i], records[i], pDst, extra, values[i], states[i + 1])
  }

  lemma SitesInside(kind: SourceKind, value: u32, pDst: u32, offsets: seq<u16>, size: nat)
    requires pDst + REACH <= size
    ensures AllInside(SiteWrites(kind, value, pDst, offsets), size)
  {
  }

  method DoFixup(memory: array<u8>, pDst: u32, offset: u16, finalVal: u32, finalVal2: u16, finalSize: nat)
    requires pDst + REACH <= memory.Length
    modifies memory
    ensures memory[..] == PutBytes(old(memory[..]), pDst + offset, FixupBytes(finalVal, finalVal2, finalSize))
  {
    if finalVal == 0 {
    } else if finalSize == 1 || finalSize == 2 || finalSize == 4 {
      StoreLittle(memory, pDst + offset, finalVal, finalSize);
    } else if finalSize == 6 {
      StoreLittle(memory, pDst + offset, finalVal2, 2);
      StoreLittle(memory, pDst + offset + 2, finalVal, 4);
    }
  }

  method StoreLittle(memory: array<u8>, at: nat, v: u32, n: nat)
    requires n <= 4 && at + n <= memory.Length
    modifies memory
    ensures memory[..] == PutBytes(old(memory[..]), at, Little(v, n))
  {
    for k := 0 to n
      invariant forall i :: 0 <= i < memory.Length ==> memory[i] == if at <= i < at + k then ByteOf(v, i - at)
          else old(memory[i])
    {
      memory[at + k] := ByteOf(v, k);
    }
  }

  /** Every source of one record is patched with the record's value. */
  method PatchSources(memory: array<u8>, pDst: u32, r: Record, finalVal: u32)
    requires pDst + REACH <= BUS32 <= memory.Length
    modifies memory
    ensures AllInside(SiteWrites(r.kind, finalVal, pDst, Offsets(r.source)), memory.Length)
    ensures memory[..] == PerformAll(old(memory[..]), SiteWrites(r.kind, finalVal, pDst, Offsets(r.source)))
  {
    ghost var before := memory[..];
    var offsets := Offsets(r.source);
    for i := 0 to |offsets|
      invariant AllInside(SiteWrites(r.kind, finalVal, pDst, offsets[..i]), |before|)
      invariant memory[..] == PerformAll(before, SiteWrites(r.kind, finalVal, pDst, offsets[..i]))
    {
      var offset := offsets[i];
      DoFixup(memory, pDst, offset, SiteValue(r.kind, finalVal, pDst + offset), 0, SizeOf(r.kind));
      SitesInside(r.kind, finalVal, pDst, offsets, |before|);
      OneMoreSite(before, r.kind, finalVal, pDst, offsets, i);
    }
    assert offsets[..|offsets|] == offsets;
    SitesInside(r.kind, finalVal, pDst, offsets, |before|);
  }

  lemma OneMoreSite(m: seq<u8>, kind: SourceKind, value: u32, pDst: u32, offsets: seq<u16>, i: nat)
    requires i < |offsets| && AllInside(SiteWrites(kind, value, pDst, offsets), |m|)
    ensures AllInside(SiteWrites(kind, value, pDst, offsets[..i]), |m|)
    ensures AllInside(SiteWrites(kind, value, pDst, offsets[..i + 1]), |m|)
    ensures Inside(SiteWrite(kind, value, pDst, offsets[i]), |m|)
    ensures PerformAll(m, SiteWrites(kind, value, pDst, offsets[..i + 1]))
         == Perform(PerformAll(m, SiteWrites(kind, value, pDst, offsets[..i])),
           SiteWrite(kind, value, pDst, offsets[i]))
  {
    hide SiteWrite, PerformAll, Inside, Perform;
    var (all, ws, w) := (SiteWrites(kind, value, pDst, offsets), SiteWrites(kind, value, pDst, offsets[..i]),
      SiteWrite(kind, value, pDst, offsets[i]));
    assert ws == all[..i] && w == all[i];
    assert SiteWrites(kind, value, pDst, offsets[..i + 1]) == ws + [w];
    assert w in all && w in [w];
    PerformAppend(m, ws, [w]);
    PerformOne(PerformAll(m, ws), w);
  }

  lemma PerformOne(m: seq<u8>, w: Write)
    requires Inside(w, |m|)
    ensures AllInside([w], |m|) && PerformAll(m, [w]) == Perform(m, w)
  {
    hide Perform, Inside;
    var m' := Perform(m, w);
    assert AllInside([w], |m|) && AllInside([], |m'|);
    assert PerformAll(m', []) == m';
    assert [w][1..] == [];
  }

  /** Read one record, advancing through the buffer field by field. */
  method ReadRecord(exe: seq<u8>, start: nat) returns (r: Parsed)
    ensures r == ParseRecord(exe, start)
  {
    hide TestBit, Bytes16, Bytes32;
    var pFixup := start;
    if pFixup + 2 > |exe| { return Overrun; }
    var (srcType, flags) := (exe[pFixup], exe[pFixup + 1]);
    pFixup := pFixup + 2;
    var list := IsList(srcType);
    var head := if list then 1 else 2;
    if pFixup + head > |exe| { return Overrun; }
    var srcOffset := NumAt(exe, pFixup, head);
    pFixup := pFixup + head;
    if flags % 4 >= 2 { return Exits; }
    var width := IdWidth(flags);
    if pFixup + width > |exe| { return Overrun; }
    var id := NumAt(exe, pFixup, width);
    pFixup := pFixup + width;
    width := NumberWidth(KindOf(srcType), flags);
    if pFixup + width > |exe| { return Overrun; }
    var number := NumAt(exe, pFixup, width);
    pFixup := pFixup + width;
    width := AdditiveWidth(flags);
    if pFixup + width > |exe| { return Overrun; }
    var additive := NumAt(exe, pFixup, width);
    pFixup := pFixup + width;
    var target := if flags % 4 == 0 then Internal(id, number) else Ordinal(id, number);
    if !list {
      return Parsed(Record(KindOf(srcType), TestBit(srcType, 0x10), Single(srcOffset.w), target, additive), pFixup);
    }
    ghost var first := pFixup;
    var offsets: seq<u16> := [];
    while |offsets| < srcOffset.b
      invariant |offsets| <= srcOffset.b && pFixup == first + 2 * |offsets| <= |exe|
      invariant offsets == OffsetsAt(exe, first, |offsets|)
    {
      if pFixup + 2 > |exe| { return Overrun; }
      offsets := offsets + [Bytes16(exe[pFixup], exe[pFixup + 1])];
      pFixup := pFixup + 2;
    }
    return Parsed(Record(KindOf(srcType), TestBit(srcType, 0x10), List(offsets), target, additive), pFixup);
  }

  datatype Outcome = Done | Exited | ReadOutside | ThunkFailed(lookup: Lookup)

  /** The imports a list of records asks for. */
  function RecordAsks(records: seq<Record>): seq<Ask>
  {
    if records == [] then [] else OneAsk(records[0]) + RecordAsks(records[1..])
  }

  function OneAsk(r: Record): seq<Ask>
  {
    if r.target.Ordinal? then [Ask(ModuleOf(r.target), r.target.importId.Value())] else []
  }

  /** The loop over a page's records: it applies, in order, those that the stream parses to, as far as they are
      affordable. It stops where the parser does, or at the first import that cannot be resolved. */
  method FixupRecords(exe: seq<u8>, start: nat, end: nat, pDst: u32, thunks: ThunkTable)
    returns (r: Outcome, ghost records: seq<Record>, ghost states: seq<Loader>, ghost values: seq<u32>)
    requires thunks.Valid() && pDst + REACH <= BUS32
    modifies thunks, thunks.memory, thunks.frames.bitmap
    ensures thunks.Valid()
    ensures Applied(states, records, values, pDst, thunks.frames.Extra())
    ensures states[0] == old(thunks.State())
    ensures if r.ThunkFailed?
        then Fails(states[|records|], r.lookup, thunks.State())
        else states[|records|] == thunks.State()
    ensures r.ThunkFailed? <==> !Affordable(old(thunks.State()), RecordAsks(ParseAll(exe, start, end).records))
    ensures if r.ThunkFailed? then records < ParseAll(exe, start, end).records
        else records == ParseAll(exe, start, end).records
    ensures r.Done? ==> ParseAll(exe, start, end).Stream?
    ensures r.Exited? ==> ParseAll(exe, start, end).StreamExits?
    ensures r.ReadOutside? ==> ParseAll(exe, start, end).StreamOverrun?
  {
    hide RecordDone, ParseRecord, Sized, Affordable, RecordAsks, ParseAll, Progress, Applied, CannotResolve;
    var pFixup := start;
    records, states, values := [], [thunks.State()], [];
    ghost var extra := thunks.frames.Extra();
    ghost var first := thunks.State();
    ghost var all := ParseAll(exe, start, end).records;
    Starts(exe, start, end, first, pDst, extra);
    while pFixup < end
      invariant thunks.Valid() && |states| == |records| + 1
      invariant Applied(states, records, values, pDst, extra)
      invariant states[0] == first && states[|records|] == thunks.State()
      invariant Progress(exe, start, pFixup, end, records)
      invariant Affordable(first, RecordAsks(all)) <==>
          Affordable(thunks.State(), RecordAsks(ParseAll(exe, pFixup, end).records))
    {
      var parsed := ReadRecord(exe, pFixup);
      match parsed
      case Exits =>
        StopsHere(exe, start, pFixup, end, records, thunks.State());
        return Exited, records, states, values;
      case Overrun =>
        StopsHere(exe, start, pFixup, end, records, thunks.State());
        return ReadOutside, records, states, values;
      case Parsed(record, next) =>
        ghost var later := ParseAll(exe, next, end).records;
        ghost var st := thunks.State();
        ParseStep(exe, start, pFixup, end, records);
        var lookup, value := ApplyRecord(record, pDst, thunks);
        if !lookup.Address? {
          CannotAfford(st, record, later);
          return ThunkFailed(lookup), records, states, values;
        }
        RecordAffords(st, record, later, pDst, extra, value, thunks.State());
        AppliedGrows(states, records, values, pDst, extra, record, value, thunks.State());
        records, states, values := records + [record], states + [thunks.State()], values + [value];
        pFixup := next;
    }
    StopsHere(exe, start, pFixup, end, records, thunks.State());
    return Done, records, states, values;
  }

  // ----- Where a page's records are -----

  /** The header's offsets of the fixup page table and the fixup record table. */
  datatype Header = Header(pageTable: u32, recordTable: u32)

  /** From where to where a page's records lie in the file buffer, or that its table entry is not in it. */
  datatype Bounds = Bounds(start: nat, end: nat) | NotInFile

  function DwordAt(exe: seq<u8>, pos: nat): u32
    requires pos + 4 <= |exe|
  {
    Bytes32(exe[pos], exe[pos + 1], exe[pos + 2], exe[pos + 3])
  }

  /** The records between a table entry, counted from 0, and the next one; their length is a 32-bit difference. */
  function BoundsOf(exe: seq<u8>, lx: Header, entry: int): Bounds
  {
    var p := lx.pageTable + 4 * entry;
    if p < 0 || p + 8 > |exe| then NotInFile
    else
      var start := lx.recordTable + DwordAt(exe, p);
      Bounds(start, start + Wrap32(DwordAt(exe, p + 4) - DwordAt(exe, p)))
  }

  /** The stream that FixupPage reads for any page of an object: that of the object's first page entry, `index` counted
      from 1. */
  function PageStream(exe: seq<u8>, lx: Header, index: u32): Stream
  {
    match BoundsOf(exe, lx, index - 1)
    case Bounds(start, end) => ParseAll(exe, start, end)
    case NotInFile => StreamOverrun([])
  }

  /** FixupPage: the bounds come from the object's first page entry, whichever page is at `pDst`. */
  method FixupPage(exe: seq<u8>, lx: Header, index: u32, pDst: u32, thunks: ThunkTable)
    returns (r: Outcome, ghost records: seq<Record>, ghost states: seq<Loader>, ghost values: seq<u32>)
    requires thunks.Valid() && pDst + REACH <= BUS32
    modifies thunks, thunks.memory, thunks.frames.bitmap
    ensures thunks.Valid()
    ensures Applied(states, records, values, pDst, thunks.frames.Extra())
    ensures states[0] == old(thunks.State())
    ensures if r.ThunkFailed?
        then Fails(states[|records|], r.lookup, thunks.State())
        else states[|records|] == thunks.State()
    ensures r.ThunkFailed? <==> !Affordable(old(thunks.State()), RecordAsks(PageStream(exe, lx, index).records))
    ensures if r.ThunkFailed? then records < PageStream(exe, lx, index).records
        else records == PageStream(exe, lx, index).records
    ensures r.Done? ==> PageStream(exe, lx, index).Stream?
    ensures r.Exited? ==> PageStream(exe, lx, index).StreamExits?
    ensures r.ReadOutside? ==> PageStream(exe, lx, index).StreamOverrun?
  {
    hide Affordable, RecordAsks, ParseAll, Applied, Fails, Bytes32;
    var fixupPage: int := lx.pageTable + 4 * (index as int - 1);
    if fixupPage < 0 || fixupPage + 8 > |exe| {
      NothingAsked(thunks.State());
      Starts(exe, 0, 0, thunks.State(), pDst, thunks.frames.Extra());
      return ReadOutside, [], [thunks.State()], [];
    }
    var fixupOffset := DwordAt(exe, fixupPage);
    var fixupLen := Wrap32(DwordAt(exe, fixupPage + 4) - fixupOffset);
    var pFixup := lx.recordTable + fixupOffset;
    r, records, states, values := FixupRecords(exe, pFixup, pFixup + fixupLen, pDst, thunks);
  }

  /** The records up to `pos` have been parsed. */
  ghost predicate Progress(exe: seq<u8>, start: nat, pos: nat, end: nat, records: seq<Record>)
  {
    ParseAll(exe, start, end) == Prepend(records, ParseAll(exe, pos, end))
  }

  lemma Starts(exe: seq<u8>, start: nat, end: nat, st: Loader, pDst: u32, extra: nat)
    requires Sized(st) && pDst + REACH <= BUS32
    ensures Progress(exe, start, start, end, []) && Applied([st], [], [], pDst, extra)
  {
    hide ParseAll, Sized;
    var all := ParseAll(exe, start, end).records;
    assert [] + all == all;
  }

  lemma StopsHere(exe: seq<u8>, start: nat, pos: nat, end: nat, records: seq<Record>, st: Loader)
    requires Sized(st) && Progress(exe, start, pos, end, records) && (pos < end ==> !ParseRecord(exe, pos).Parsed?)
    ensures ParseAll(exe, start, end).records == records && Affordable(st, RecordAsks(ParseAll(exe, pos, end).records))
    ensures pos >= end ==> ParseAll(exe, start, end).Stream?
    ensures pos < end && ParseRecord(exe, pos).Exits? ==> ParseAll(exe, start, end).StreamExits?
    ensures pos < end && ParseRecord(exe, pos).Overrun? ==> ParseAll(exe, start, end).StreamOverrun?
  {
    hide ParseRecord, Affordable;
    assert records + [] == records;
    NothingAsked(st);
  }

  lemma AppliedGrows(states: seq<Loader>, records: seq<Record>, values: seq<u32>, pDst: u32, extra: nat, r: Record,
      value: u32, after: Loader)
    requires pDst + REACH <= BUS32 && Applied(states, records, values, pDst, extra)
    requires Sized(after) && RecordDone(states[|records|], r, pDst, extra, value, after)
    ensures Applied(states + [after], records + [r], values + [value], pDst, extra)
  {
    hide RecordDone, Sized;
  }

  lemma NothingAsked(st: Loader)
    requires Sized(st)
    ensures Affordable(st, RecordAsks([]))
  {
    hide Spare;
    assert NeededWords(st, []) == {};
  }

  /** A record whose import cannot be resolved makes the list unaffordable. */
  lemma CannotAfford(st: Loader, r: Record, later: seq<Record>)
    requires Sized(st) && CannotResolve(st, r)
    ensures !Affordable(st, RecordAsks([r] + later))
  {
    hide Locate, NeedsThunk, Spare;
    assert ([r] + later)[1..] == later;
    var asks := RecordAsks([r] + later);
    assert asks[0] == OneAsk(r)[0];
    if Affordable(st, asks) { FirstIsServed(st, asks); }
  }

  ghost predicate CannotResolve(st: Loader, r: Record)
    requires Sized(st)
  {
    && r.target.Ordinal?
    && var (m, o) := (ModuleOf(r.target), r.target.importId.Value());
       Locate(st, m, o).Undefined? || (NeedsThunk(st, m, o) && Spare(st.pages) == {})
  }

  /** Applying a record leaves the later ones affordable exactly when it and they were. */
  lemma RecordAffords(st: Loader, r: Record, later: seq<Record>, pDst: u32, extra: nat, value: u32, after: Loader)
    requires Sized(st) && extra <= 1 && pDst + REACH <= BUS32 && RecordDone(st, r, pDst, extra, value, after)
    ensures Sized(after) && (Affordable(st, RecordAsks([r] + later)) <==> Affordable(after, RecordAsks(later)))
  {
    hide Locate, NeedsThunk, Spare, SiteWrites, PerformAll, Serves, AllInside, Affordable;
    var mid :| Resolves(st, r.target, extra, value, mid) && Patched(mid, r, pDst, value, after);
    var (asks, rest) := (RecordAsks([r] + later), RecordAsks(later));
    assert ([r] + later)[1..] == later;
    assert asks == OneAsk(r) + rest;
    if r.target.Ordinal? {
      assert asks[0] == OneAsk(r)[0] && asks[1..] == rest;
      AffordableStep(st, asks, extra, value, mid);
    } else {
      assert asks == rest;
    }
    MemoryDoesNotMatter(mid, after, RecordAsks(later));
  }

  lemma MemoryDoesNotMatter(st: Loader, after: Loader, asks: seq<Ask>)
    requires Sized(st) && Sized(after) && after == st.(mem := after.mem)
    ensures Affordable(st, asks) <==> Affordable(after, asks)
  {
    hide Spare;
    forall i | 0 <= i < |asks|
      ensures Locate(st, asks[i].moduleId, asks[i].importId) == Locate(after, asks[i].moduleId, asks[i].importId)
      ensures NeedsThunk(st, asks[i].moduleId, asks[i].importId) ==
          NeedsThunk(after, asks[i].moduleId, asks[i].importId) {
    }
    hide Locate, NeedsThunk;
    assert NeededWords(st, asks) == NeededWords(after, asks);
  }

  lemma ParseStep(exe: seq<u8>, start: nat, pos: nat, end: nat, records: seq<Record>)
    requires pos < end && ParseRecord(exe, pos).Parsed? && Progress(exe, start, pos, end, records)
    ensures var p := ParseRecord(exe, pos);
            && Progress(exe, start, p.next, end, records + [p.record]) && records < ParseAll(exe, start, end).records
            && ParseAll(exe, pos, end).records == [p.record] + ParseAll(exe, p.next, end).records
  {
    hide ParseRecord;
    var p := ParseRecord(exe, pos);
    var rest := ParseAll(exe, p.next, end);
    assert records + ([p.record] + rest.records) == records + [p.record] + rest.records;
    Prepended(exe, start, pos, end, records);
  }

  lemma Prepended(exe: seq<u8>, start: nat, pos: nat, end: nat, records: seq<Record>)
    requires Progress(exe, start, pos, end, records)
    ensures ParseAll(exe, start, end).records == records + ParseAll(exe, pos, end).records
  {
    hide ParseAll;
  }

  /** Resolve one record's target, add the additive and patch its sources; if it cannot be resolved, nothing is
      patched. */
  method ApplyRecord(record: Record, pDst: u32, thunks: ThunkTable) returns (lookup: Lookup, ghost value: u32)
    requires thunks.Valid() && pDst + REACH <= BUS32
    modifies thunks, thunks.memory, thunks.frames.bitmap
    ensures thunks.Valid()
    ensures lookup.Address? ==>
      RecordDone(old(thunks.State()), record, pDst, thunks.frames.Extra(), value, thunks.State())
    ensures !lookup.Address? <==> CannotResolve(old(thunks.State()), record)
    ensures !lookup.Address? ==> Fails(old(thunks.State()), lookup, thunks.State())
  {
    hide Serves, PerformAll, SiteWrites, AllInside, Locate, NeedsThunk, Spare;
    value := 0;
    lookup := Address(0);
    if record.target.Ordinal? {
      lookup := thunks.GetModuleProcAddrByOrdinal(ModuleOf(record.target), record.target.importId.Value());
      if !lookup.Address? { return; }
    }
    value := lookup.address;
    ghost var mid := thunks.State();
    PatchSources(thunks.memory, pDst, record, Wrap32(lookup.address + record.additive.Value()));
    assert Patched(mid, record, pDst, value, thunks.State());
  }

  /** Every affordable list of records can be applied. */
  lemma {:induction false} PageRunExists(st: Loader, records: seq<Record>, pDst: u32, extra: nat)
    returns (states: seq<Loader>, values: seq<u32>)
    requires Sized(st) && extra <= 1 && pDst + REACH <= BUS32 && Affordable(st, RecordAsks(records))
    ensures Applied(states, records, values, pDst, extra) && states[0] == st
    decreases records
  {
    hide Affordable, RecordDone, Sized, OneAsk;
    if records == [] {
      states, values := [st], [];
    } else {
      assert records == [records[0]] + records[1..];
      var value, after := OneRecord(st, records[0], records[1..], pDst, extra);
      RecordAffords(st, records[0], records[1..], pDst, extra, value, after);
      var later, addresses := PageRunExists(after, records[1..], pDst, extra);
      states, values := [st] + later, [value] + addresses;
      forall i | 0 <= i < |records| ensures RecordDone(states[i], records[i], pDst, extra, values[i], states[i + 1]) {
        if i > 0 {
          assert records[1..][i - 1] == records[i];
          assert RecordDone(later[i - 1], records[1..][i - 1], pDst, extra, addresses[i - 1], later[i]);
        }
      }
    }
  }

  lemma OneRecord(st: Loader, r: Record, later: seq<Record>, pDst: u32, extra: nat) returns (value: u32, after: Loader)
    requires Sized(st) && extra <= 1 && pDst + REACH <= BUS32 && Affordable(st, RecordAsks([r] + later))
    ensures Sized(st) && RecordDone(st, r, pDst, extra, value, after)
  {
    hide Locate, NeedsThunk, Spare, PerformAll, Serves;
    var mid := st;
    value := 0;
    if r.target.Ordinal? {
      var asks := RecordAsks([r] + later);
      FirstIsServed(st, asks);
      assert asks[0] == OneAsk(r)[0];
      value, mid := ServeOne(st, ModuleOf(r.target), r.target.importId.Value(), extra);
      ServingLeaves(st, ModuleOf(r.target), r.target.importId.Value(), extra, value, mid);
    }
    SitesInside(r.kind, Wrap32(value + r.additive.Value()), pDst, Offsets(r.source), |mid.mem|);
    after := mid.(mem := PerformAll(mid.mem, RecordWrites(r, value, pDst)));
    assert Resolves(st, r.target, extra, value, mid) && Patched(mid, r, pDst, value, after);
  }

  // ----- What a page's fixups amount to -----

  /** Pages [lo, hi) are taken, and none of them holds a thunk. */
  ghost predicate Reserved(orig: seq<seq<u32>>, st: Loader, lo: nat, hi: nat)
    requires SameShape(orig, st.tables)
  {
    && hi <= |st.pages| && (forall p :: lo <= p < hi ==> st.pages[p])
    && forall t, k :: IsWord(orig, t, k) && st.tables[t][k] >= TAG ==> !(lo <= (st.tables[t][k] - TAG) / PAGE_SIZE < hi)
  }

  /** Every source of the record lies in pages [lo, hi). */
  ghost predicate SourcesIn(r: Record, pDst: u32, lo: nat, hi: nat)
  {
    forall o :: o in Offsets(r.source) ==> PAGE_SIZE * lo <= pDst + o && pDst + o + SizeOf(r.kind) <= PAGE_SIZE * hi
  }

  ghost predicate AgreeIn(m: seq<u8>, n: seq<u8>, lo: nat, hi: nat)
  {
    |m| == |n| && forall a :: PAGE_SIZE * lo <= a < PAGE_SIZE * hi && a < |m| ==> m[a] == n[a]
  }

  /** A thunk goes to a page of its own, outside any region that is taken. */
  lemma ResolvingKeepsRegion(orig: seq<seq<u32>>, st: Loader, t: Target, extra: nat, value: u32, after: Loader, lo: nat,
      hi: nat)
    requires Memo(orig, st) && Reserved(orig, st, lo, hi) && Resolves(st, t, extra, value, after)
    ensures Memo(orig, after) && Reserved(orig, after, lo, hi)
    ensures AgreeIn(st.mem, after.mem, lo, hi) && forall m: u16, o: u32 :: Locate(after, m, o) == Locate(st, m, o)
    ensures t.Ordinal? ==> Answers(orig, after, Locate(st, ModuleOf(t), t.importId.Value()), value)
    ensures forall t, k :: IsWord(orig, t, k) && st.tables[t][k] >= TAG ==> after.tables[t][k] == st.tables[t][k]
  {
    if t.Ordinal? {
      var (m, o) := (ModuleOf(t), t.importId.Value());
      ServingKeepsMemo(orig, st, m, o, extra, value, after);
      ServingKeepsRegion(orig, st, m, o, extra, value, after, lo, hi);
      SamePlaces(st, after);
    }
  }

  lemma ServingKeepsRegion(orig: seq<seq<u32>>, st: Loader, m: u16, o: u32, extra: nat, value: u32, after: Loader,
      lo: nat, hi: nat)
    requires Memo(orig, st) && Reserved(orig, st, lo, hi) && Serves(st, m, o, extra, value, after)
        && SameShape(orig, after.tables)
    ensures Reserved(orig, after, lo, hi) && AgreeIn(st.mem, after.mem, lo, hi)
  {
    var p := Locate(st, m, o);
    if p.Word? && 0 < st.tables[p.table][p.index] < TAG {
      var w := st.tables[p.table][p.index];
      var page: nat, made :| Generates(st, w, page, extra, made) && value == PAGE_SIZE * page
        && after == made.(tables := SetWord(st.tables, p.table, p.index, TAG + PAGE_SIZE * page));
      assert !(lo <= page < hi);
    }
  }

  lemma {:induction false} OnlyWrittenBytesChange(m: seq<u8>, ws: seq<Write>, i: nat)
    requires AllInside(ws, |m|) && i < |m| && forall w :: w in ws ==> !Touches(w, i)
    ensures PerformAll(m, ws)[i] == m[i]
    decreases |ws|
  {
    if ws != [] { OnlyWrittenBytesChange(Perform(m, ws[0]), ws[1..], i); }
  }

  lemma {:induction false} AgreementKept(m: seq<u8>, n: seq<u8>, ws: seq<Write>, lo: nat, hi: nat)
    requires AgreeIn(m, n, lo, hi) && AllInside(ws, |m|)
    ensures AgreeIn(PerformAll(m, ws), PerformAll(n, ws), lo, hi)
    decreases |ws|
  {
    if ws != [] { AgreementKept(Perform(m, ws[0]), Perform(n, ws[0]), ws[1..], lo, hi); }
  }

  /** Patches inside the region leave every thunk alone. */
  lemma PatchingKeepsMemo(orig: seq<seq<u32>>, st: Loader, r: Record, pDst: u32, value: u32, after: Loader, lo: nat,
      hi: nat)
    requires pDst + REACH <= BUS32 && SourcesIn(r, pDst, lo, hi) && Patched(st, r, pDst, value, after)
    requires Memo(orig, st) && Reserved(orig, st, lo, hi)
    ensures Memo(orig, after) && Reserved(orig, after, lo, hi)
  {
    var ws := SiteWrites(r.kind, Wrap32(value + r.additive.Value()), pDst, Offsets(r.source));
    SitesInRegion(r, pDst, Wrap32(value + r.additive.Value()), lo, hi);
    forall t, k | IsWord(orig, t, k) && Mapped(orig, st, t, k) ensures Mapped(orig, after, t, k) {
      var a := st.tables[t][k] - TAG;
      forall i | a <= i < a + 8 ensures after.mem[i] == st.mem[i] {
        OnlyWrittenBytesChange(st.mem, ws, i);
      }
      SameBytesThere(st.mem, after.mem, a, ThunkBytes(orig[t][k]));
    }
  }

  lemma SameBytesThere(m: seq<u8>, n: seq<u8>, a: nat, bytes: seq<u8>)
    requires |m| == |n| && BytesAt(m, a, bytes) && forall i :: a <= i < a + |bytes| ==> n[i] == m[i]
    ensures BytesAt(n, a, bytes)
  {
  }

  lemma SitesInRegion(r: Record, pDst: u32, value: u32, lo: nat, hi: nat)
    requires SourcesIn(r, pDst, lo, hi)
    ensures forall w :: w in SiteWrites(r.kind, value, pDst, Offsets(r.source)) ==>
      PAGE_SIZE * lo <= w.at && w.at + |w.bytes| <= PAGE_SIZE * hi
  {
    var offsets := Offsets(r.source);
    forall i | 0 <= i < |offsets| ensures var w := SiteWrites(r.kind, value, pDst, offsets)[i];
      PAGE_SIZE * lo <= w.at && w.at + |w.bytes| <= PAGE_SIZE * hi {
      assert offsets[i] in offsets;
    }
  }

  /** All the patches of a list of records, given the import addresses. */
  function PageWrites(records: seq<Record>, values: seq<u32>, pDst: u32): seq<Write>
    requires |values| == |records|
    decreases |records|
  {
    if records == [] then []
    else
      var n := |records| - 1;
      PageWrites(records[..n], values[..n], pDst) + RecordWrites(records[n], values[n], pDst)
  }

  /** Every source of every record lies in the region. */
  ghost predicate PageIn(records: seq<Record>, pDst: u32, lo: nat, hi: nat)
  {
    forall i :: 0 <= i < |records| ==> SourcesIn(records[i], pDst, lo, hi)
  }

  /** One record: its thunk goes elsewhere, its patches stay in the region. */
  lemma RecordKeeps(orig: seq<seq<u32>>, st: Loader, r: Record, pDst: u32, extra: nat, value: u32, after: Loader,
      lo: nat, hi: nat)
    requires pDst + REACH <= BUS32 && Memo(orig, st) && Reserved(orig, st, lo, hi) && SourcesIn(r, pDst, lo, hi)
    requires RecordDone(st, r, pDst, extra, value, after)
    ensures Memo(orig, after) && Reserved(orig, after, lo, hi)
    ensures AllInside(RecordWrites(r, value, pDst), |st.mem|)
    ensures AgreeIn(after.mem, PerformAll(st.mem, RecordWrites(r, value, pDst)), lo, hi)
    ensures forall m: u16, o: u32 :: Locate(after, m, o) == Locate(st, m, o)
    ensures r.target.Ordinal? ==> Answers(orig, after, Locate(st, ModuleOf(r.target), r.target.importId.Value()), value)
    ensures forall t, k :: IsWord(orig, t, k) && st.tables[t][k] >= TAG ==> after.tables[t][k] == st.tables[t][k]
  {
    hide Reserved, PerformAll, RecordWrites, SourcesIn, Mapped, Locate, Serves;
    var mid :| Resolves(st, r.target, extra, value, mid) && Patched(mid, r, pDst, value, after);
    ResolvingKeepsRegion(orig, st, r.target, extra, value, mid, lo, hi);
    PatchingKeepsMemo(orig, mid, r, pDst, value, after, lo, hi);
    var ws := RecordWrites(r, value, pDst);
    AgreementKept(mid.mem, st.mem, ws, lo, hi);
    SamePlaces(mid, after);
  }

  lemma SamePlaces(st: Loader, after: Loader)
    requires Sized(st) && Sized(after) && after.slots == st.slots && after.moduleCount == st.moduleCount
        && SameShape(st.tables, after.tables)
    requires forall t :: 0 <= t < |st.tables| && |st.tables[t]| > 0 ==> after.tables[t][0] == st.tables[t][0]
    ensures forall m: u16, o: u32 :: Locate(after, m, o) == Locate(st, m, o)
  {
  }

  /** After `n` records the memo holds, the region is as its patches alone would leave it, and the import addresses
      are those the table then records. */
  lemma {:induction false} PagePatched(orig: seq<seq<u32>>, states: seq<Loader>, records: seq<Record>, values: seq<u32>,
      pDst: u32, extra: nat, lo: nat, hi: nat, n: nat)
    requires pDst + REACH <= BUS32 && Applied(states, records, values, pDst, extra) && n <= |records|
    requires Memo(orig, states[0]) && Reserved(orig, states[0], lo, hi) && PageIn(records, pDst, lo, hi)
    ensures Memo(orig, states[n]) && Reserved(orig, states[n], lo, hi)
    ensures AllInside(PageWrites(records[..n], values[..n], pDst), |states[0].mem|)
    ensures AgreeIn(states[n].mem, PerformAll(states[0].mem, PageWrites(records[..n], values[..n], pDst)), lo, hi)
    ensures forall m: u16, o: u32 :: Locate(states[n], m, o) == Locate(states[0], m, o)
    ensures forall i :: 0 <= i < n && records[i].target.Ordinal? ==>
        Answered(orig, states[n], states[0], records[i].target, values[i])
    decreases n
  {
    hide Reserved, Resolves, PerformAll, Answers, Locate, RecordDone, SourcesIn, RecordWrites, PageWrites, AgreeIn;
    if n == 0 {
      NothingWritten(states[0].mem, records, values, pDst, lo, hi);
    } else {
      var r := records[n - 1];
      PagePatched(orig, states, records, values, pDst, extra, lo, hi, n - 1);
      assert SourcesIn(r, pDst, lo, hi);
      RecordKeeps(orig, states[n - 1], r, pDst, extra, values[n - 1], states[n], lo, hi);
      OneMoreRecord(states[0].mem, states[n - 1].mem, states[n].mem, records, values, pDst, lo, hi, n);
      forall i | 0 <= i < n - 1 && records[i].target.Ordinal?
        ensures Answered(orig, states[n], states[0], records[i].target, values[i]) {
        StillAnswered(orig, states[n - 1], states[n], states[0], records[i].target, values[i]);
      }
      assert r.target.Ordinal? ==> Answered(orig, states[n], states[0], r.target, values[n - 1]);
    }
  }

  /** Outside the region bytes change only on pages that were free and have been taken. */
  ghost predicate OnlyNewPages(st: Loader, after: Loader, lo: nat, hi: nat)
  {
    && |after.mem| == |st.mem| && |after.pages| == |st.pages|
    && (forall p :: 0 <= p < |st.pages| && st.pages[p] ==> after.pages[p])
    && forall a :: 0 <= a < |st.mem| && !(PAGE_SIZE * lo <= a < PAGE_SIZE * hi) && after.mem[a] != st.mem[a] ==>
         a / PAGE_SIZE < |st.pages| && !st.pages[a / PAGE_SIZE] && after.pages[a / PAGE_SIZE]
  }

  lemma NewPagesCompose(a: Loader, b: Loader, c: Loader, lo: nat, hi: nat)
    requires OnlyNewPages(a, b, lo, hi) && OnlyNewPages(b, c, lo, hi)
    ensures OnlyNewPages(a, c, lo, hi)
  {
  }

  lemma ResolvingTakesPages(st: Loader, t: Target, extra: nat, value: u32, after: Loader, lo: nat, hi: nat)
    requires Sized(st) && Resolves(st, t, extra, value, after)
    ensures OnlyNewPages(st, after, lo, hi) && Sized(after)
  {
    hide PageFrames.NeverSpins;
    if t.Ordinal? {
      var p := Locate(st, ModuleOf(t), t.importId.Value());
      if p.Word? && 0 < st.tables[p.table][p.index] < TAG {
        var w := st.tables[p.table][p.index];
        var page: nat, made :| Generates(st, w, page, extra, made) && value == PAGE_SIZE * page && page < |st.pages|
          && after == made.(tables := SetWord(st.tables, p.table, p.index, TAG + PAGE_SIZE * page));
        assert |after.tables[p.table]| == |st.tables[p.table]|;
        forall a | PAGE_SIZE * page <= a < PAGE_SIZE * page + 8 ensures a / PAGE_SIZE == page {
          DivModUnique(a, page, a - PAGE_SIZE * page, PAGE_SIZE);
        }
      }
    }
  }

  lemma RecordTakesPages(st: Loader, r: Record, pDst: u32, extra: nat, value: u32, after: Loader, lo: nat, hi: nat)
    requires Sized(st) && pDst + REACH <= BUS32 && SourcesIn(r, pDst, lo, hi)
        && RecordDone(st, r, pDst, extra, value, after)
    ensures OnlyNewPages(st, after, lo, hi)
  {
    hide Resolves, SourcesIn, SiteWrites, PerformAll;
    var mid :| Resolves(st, r.target, extra, value, mid) && Patched(mid, r, pDst, value, after);
    ResolvingTakesPages(st, r.target, extra, value, mid, lo, hi);
    var ws := RecordWrites(r, value, pDst);
    SitesInRegion(r, pDst, Wrap32(value + r.additive.Value()), lo, hi);
    forall a: nat | a < |mid.mem| && !(PAGE_SIZE * lo <= a < PAGE_SIZE * hi) ensures after.mem[a] == mid.mem[a] {
      OnlyWrittenBytesChange(mid.mem, ws, a);
    }
  }

  /** A page's fixups leave everything alone but the region and the pages that thunks were given. */
  lemma {:induction false} PageFramed(states: seq<Loader>, records: seq<Record>, values: seq<u32>, pDst: u32,
      extra: nat, lo: nat, hi: nat, n: nat)
    requires pDst + REACH <= BUS32 && Applied(states, records, values, pDst, extra) && n <= |records|
        && PageIn(records, pDst, lo, hi)
    ensures OnlyNewPages(states[0], states[n], lo, hi)
    decreases n
  {
    hide RecordDone, SourcesIn, OnlyNewPages;
    if n == 0 {
      NothingTaken(states[0], lo, hi);
    } else {
      PageFramed(states, records, values, pDst, extra, lo, hi, n - 1);
      assert SourcesIn(records[n - 1], pDst, lo, hi);
      RecordTakesPages(states[n - 1], records[n - 1], pDst, extra, values[n - 1], states[n], lo, hi);
      NewPagesCompose(states[0], states[n - 1], states[n], lo, hi);
    }
  }

  lemma NothingTaken(st: Loader, lo: nat, hi: nat)
    ensures OnlyNewPages(st, st, lo, hi)
  {
  }

  lemma StillAnswered(orig: seq<seq<u32>>, st: Loader, after: Loader, first: Loader, t: Target, value: u32)
    requires Sized(first) && t.Ordinal? && Memo(orig, st) && Memo(orig, after) && Answered(orig, st, first, t, value)
    requires forall t, k :: IsWord(orig, t, k) && st.tables[t][k] >= TAG ==> after.tables[t][k] == st.tables[t][k]
    ensures Answered(orig, after, first, t, value)
  {
    hide Locate;
  }

  lemma OneMoreRecord(m0: seq<u8>, m: seq<u8>, after: seq<u8>, records: seq<Record>, values: seq<u32>, pDst: u32,
      lo: nat, hi: nat, n: nat)
    requires |values| == |records| && 0 < n <= |records|
        && AllInside(PageWrites(records[..n - 1], values[..n - 1], pDst), |m0|)
    requires AgreeIn(m, PerformAll(m0, PageWrites(records[..n - 1], values[..n - 1], pDst)), lo, hi)
    requires AllInside(RecordWrites(records[n - 1], values[n - 1], pDst), |m|)
    requires AgreeIn(after, PerformAll(m, RecordWrites(records[n - 1], values[n - 1], pDst)), lo, hi)
    ensures AllInside(PageWrites(records[..n], values[..n], pDst), |m0|)
    ensures AgreeIn(after, PerformAll(m0, PageWrites(records[..n], values[..n], pDst)), lo, hi)
  {
    hide RecordWrites, PerformAll, PageWrites, AgreeIn;
    var (before, ws) := (PageWrites(records[..n - 1], values[..n - 1], pDst),
      RecordWrites(records[n - 1], values[n - 1], pDst));
    PageWritesStep(records, values, pDst, n);
    SameLengths(m, PerformAll(m0, before), lo, hi);
    PerformAppend(m0, before, ws);
    AgreementKept(m, PerformAll(m0, before), ws, lo, hi);
    AgreeTransitive(after, PerformAll(m, ws), PerformAll(PerformAll(m0, before), ws), lo, hi);
  }

  lemma PageWritesStep(records: seq<Record>, values: seq<u32>, pDst: u32, n: nat)
    requires |values| == |records| && 0 < n <= |records|
    ensures PageWrites(records[..n], values[..n], pDst)
         == PageWrites(records[..n - 1], values[..n - 1], pDst) + RecordWrites(records[n - 1], values[n - 1], pDst)
  {
    hide RecordWrites;
    assert records[..n][..n - 1] == records[..n - 1] && values[..n][..n - 1] == values[..n - 1];
  }

  lemma SameLengths(m: seq<u8>, n: seq<u8>, lo: nat, hi: nat)
    requires AgreeIn(m, n, lo, hi)
    ensures |m| == |n|
  {
  }

  lemma AgreeTransitive(a: seq<u8>, b: seq<u8>, c: seq<u8>, lo: nat, hi: nat)
    requires AgreeIn(a, b, lo, hi) && AgreeIn(b, c, lo, hi)
    ensures AgreeIn(a, c, lo, hi)
  {
  }

  lemma NothingWritten(m: seq<u8>, records: seq<Record>, values: seq<u32>, pDst: u32, lo: nat, hi: nat)
    requires |values| == |records|
    ensures AllInside(PageWrites(records[..0], values[..0], pDst), |m|)
    ensures AgreeIn(m, PerformAll(m, PageWrites(records[..0], values[..0], pDst)), lo, hi)
  {
  }

  ghost predicate Answered(orig: seq<seq<u32>>, st: Loader, first: Loader, t: Target, value: u32)
    requires SameShape(orig, st.tables) && Sized(first) && t.Ordinal?
  {
    Answers(orig, st, Locate(first, ModuleOf(t), t.importId.Value()), value)
  }

  /** Two pages of records whose patches are the same and disjoint leave the region the same, in whatever order the
      records stood and wherever their thunks went. */
  lemma RecordOrderDoesNotMatter(orig: seq<seq<u32>>, states: seq<Loader>, records: seq<Record>, values: seq<u32>,
      extra: nat,
                                 states': seq<Loader>, records': seq<Record>, values': seq<u32>, extra': nat,
                                 pDst: u32, lo: nat, hi: nat)
    requires pDst + REACH <= BUS32
    requires Applied(states, records, values, pDst, extra) && Applied(states', records', values', pDst, extra')
    requires Memo(orig, states[0]) && Reserved(orig, states[0], lo, hi) && states'[0] == states[0]
    requires PageIn(records, pDst, lo, hi) && PageIn(records', pDst, lo, hi)
    requires Disjoint(PageWrites(records, values, pDst))
    requires forall w :: w in PageWrites(records, values, pDst) <==> w in PageWrites(records', values', pDst)
    ensures AgreeIn(states[|records|].mem, states'[|records'|].mem, lo, hi)
  {
    hide RecordDone, Memo, Reserved, PageIn, Disjoint, PageWrites, AllInside, PerformAll, AgreeIn, Answered, Locate;
    PageDone(orig, states, records, values, pDst, extra, lo, hi);
    PageDone(orig, states', records', values', pDst, extra', lo, hi);
    var m := states[0].mem;
    var (ws, ws') := (PageWrites(records, values, pDst), PageWrites(records', values', pDst));
    OrderDoesNotMatter(m, ws, ws');
    AgreeSymmetric(states'[|records'|].mem, PerformAll(m, ws'), lo, hi);
    AgreeTransitive(states[|records|].mem, PerformAll(m, ws), states'[|records'|].mem, lo, hi);
  }

  lemma AgreeSymmetric(a: seq<u8>, b: seq<u8>, lo: nat, hi: nat)
    requires AgreeIn(a, b, lo, hi)
    ensures AgreeIn(b, a, lo, hi)
  {
  }

  lemma PageDone(orig: seq<seq<u32>>, states: seq<Loader>, records: seq<Record>, values: seq<u32>, pDst: u32,
      extra: nat, lo: nat, hi: nat)
    requires pDst + REACH <= BUS32 && Applied(states, records, values, pDst, extra)
    requires Memo(orig, states[0]) && Reserved(orig, states[0], lo, hi) && PageIn(records, pDst, lo, hi)
    ensures Sized(states[0]) && Memo(orig, states[|records|]) && Reserved(orig, states[|records|], lo, hi)
    ensures |values| == |records| && AllInside(PageWrites(records, values, pDst), |states[0].mem|)
    ensures AgreeIn(states[|records|].mem, PerformAll(states[0].mem, PageWrites(records, values, pDst)), lo, hi)
    ensures forall i :: 0 <= i < |records| && records[i].target.Ordinal? ==>
              Answered(orig, states[|records|], states[0], records[i].target, values[i])
  {
    hide Reserved, RecordDone, PageIn, PageWrites, AllInside, PerformAll, AgreeIn, Answered;
    PagePatched(orig, states, records, values, pDst, extra, lo, hi, |records|);
    assert records[..|records|] == records && values[..|records|] == values;
  }

  lemma {:induction false} SiteIsWritten(records: seq<Record>, values: seq<u32>, pDst: u32, i: nat, o: u16)
    requires |values| == |records| && i < |records| && o in Offsets(records[i].source)
    ensures SiteWrite(records[i].kind, Wrap32(values[i] + records[i].additive.Value()), pDst, o) in PageWrites(records,
        values, pDst)
    decreases |records|
  {
    hide SiteWrite;
    var n := |records| - 1;
    if i < n {
      SiteIsWritten(records[..n], values[..n], pDst, i, o);
    } else {
      var k :| 0 <= k < |Offsets(records[i].source)| && Offsets(records[i].source)[k] == o;
      assert RecordWrites(records[n], values[n], pDst)[k]
          == SiteWrite(records[i].kind, Wrap32(values[i] + records[i].additive.Value()), pDst, o);
    }
  }

  /** No other patch of the page touches the `n` bytes at `w.at`. */
  ghost predicate ClearSite(ws: seq<Write>, w: Write, n: nat)
  {
    forall v :: v in ws && v != w && v.bytes != [] ==> v.at + |v.bytes| <= w.at || w.at + n <= v.at
  }

  lemma {:induction false} OneWriteLands(m: seq<u8>, ws: seq<Write>, w: Write)
    requires AllInside(ws, |m|) && w in ws && forall v :: v in ws && v != w ==> Apart(v, w)
    ensures BytesAt(PerformAll(m, ws), w.at, w.bytes)
    decreases |ws|
  {
    hide Perform, BytesAt, Apart, Touches;
    var (first, rest) := (ws[0], ws[1..]);
    assert ws == [first] + rest;
    var m' := Perform(m, first);
    if w in rest {
      OneWriteLands(m', rest, w);
    } else {
      WriteLands(m, first);
      forall i: nat | i < |m'| && (forall v :: v in rest ==> !Touches(v, i)) ensures PerformAll(m', rest)[i] == m'[i] {
        OnlyWrittenBytesChange(m', rest, i);
      }
      Survives(m', PerformAll(m', rest), rest, w);
    }
  }

  /** At a clear site the patch lands, and where it stores nothing the bytes stay. */
  lemma SiteLands(m: seq<u8>, ws: seq<Write>, w: Write, n: nat)
    requires AllInside(ws, |m|) && w in ws && ClearSite(ws, w, n) && (w.bytes == [] || |w.bytes| == n)
        && w.at + n <= |m|
    ensures BytesAt(PerformAll(m, ws), w.at, w.bytes)
    ensures w.bytes == [] ==> forall k :: w.at <= k < w.at + n ==> PerformAll(m, ws)[k] == m[k]
  {
    if w.bytes == [] {
      forall k | w.at <= k < w.at + n ensures PerformAll(m, ws)[k] == m[k] {
        OnlyWrittenBytesChange(m, ws, k);
      }
    } else {
      OneWriteLands(m, ws, w);
    }
  }

  /** What record `i` stores at its source `o`, given the import addresses. */
  function SourceWrite(records: seq<Record>, values: seq<u32>, pDst: u32, i: nat, o: u16): Write
    requires i < |records| == |values|
  {
    SiteWrite(records[i].kind, SourceValue(records, values, i), pDst, o)
  }

  function SourceValue(records: seq<Record>, values: seq<u32>, i: nat): u32
    requires i < |records| == |values|
  {
    Wrap32(values[i] + records[i].additive.Value())
  }

  /** Once a page is done, a source that no other patch touches holds its value exactly when that is not skipped as zero
      or the field was zero in the file. */
  lemma SourceIsDone(orig: seq<seq<u32>>, states: seq<Loader>, records: seq<Record>, values: seq<u32>, pDst: u32,
      extra: nat, lo: nat, hi: nat, i: nat, o: u16)
    requires pDst + REACH <= BUS32 && Applied(states, records, values, pDst, extra)
    requires Memo(orig, states[0]) && Reserved(orig, states[0], lo, hi) && PageIn(records, pDst, lo, hi)
    requires i < |records| && o in Offsets(records[i].source)
    requires ClearSite(PageWrites(records, values, pDst), SourceWrite(records, values, pDst, i, o),
        SizeOf(records[i].kind))
    ensures var value := SourceValue(records, values, i);
            FieldHolds(states[|records|].mem, pDst + o, records[i].kind, value)
            <==> SiteValue(records[i].kind, value, pDst + o) != 0 ||
                 FieldIsZero(states[0].mem, pDst + o, records[i].kind)
  {
    hide RecordDone, Reserved, PageWrites, AllInside, PerformAll, Answered, Memo;
    hide SiteWrite, SourcesIn, BytesAt, FieldHolds, FieldIsZero, ClearSite, SiteValue, AgreeIn;
    PageDone(orig, states, records, values, pDst, extra, lo, hi);
    SiteIsWritten(records, values, pDst, i, o);
    var (m, ws, last) := (states[0].mem, PageWrites(records, values, pDst), states[|records|].mem);
    var (kind, value, w) := (records[i].kind, SourceValue(records, values, i),
      SourceWrite(records, values, pDst, i, o));
    SiteShape(kind, value, pDst, o);
    SiteLands(m, ws, w, SizeOf(kind));
    assert SourcesIn(records[i], pDst, lo, hi);
    SiteStays(m, PerformAll(m, ws), last, w, records[i], value, pDst, o, lo, hi);
    SiteReadsBack(m, last, kind, value, pDst, o);
  }

  lemma SiteShape(kind: SourceKind, value: u32, pDst: u32, o: u16)
    ensures SiteWrite(kind, value, pDst, o).at == pDst + o
    ensures |SiteWrite(kind, value, pDst, o).bytes| == if SiteValue(kind, value, pDst + o) == 0 then 0 else SizeOf(kind)
  {
  }

  /** The site lies in the region, where only the page's patches count. */
  lemma SiteStays(before: seq<u8>, m: seq<u8>, n: seq<u8>, w: Write, r: Record, value: u32, pDst: u32, o: u16, lo: nat,
      hi: nat)
    requires w == SiteWrite(r.kind, value, pDst, o) && o in Offsets(r.source) && |before| == |m|
    requires SourcesIn(r, pDst, lo, hi) && AgreeIn(n, m, lo, hi) && BytesAt(m, w.at, w.bytes)
        && pDst + o + SizeOf(r.kind) <= |m|
    requires w.bytes == [] ==> forall k :: w.at <= k < w.at + SizeOf(r.kind) ==> m[k] == before[k]
    ensures |n| == |m| && BytesAt(n, w.at, w.bytes)
    ensures SiteValue(r.kind, value, pDst + o) == 0 ==>
              forall k :: pDst + o <= k < pDst + o + SizeOf(r.kind) ==> n[k] == before[k]
  {
    SiteShape(r.kind, value, pDst, o);
    hide SiteWrite, SiteValue;
  }

  /** What the interpreter finds at a self-relative call site once its page is done: at the thunk's address the code
      that calls the host function, and in the field the displacement to it, exactly when the target is not the very
      next instruction or the field was zero in the file. */
  lemma CallSiteIsReady(orig: seq<seq<u32>>, states: seq<Loader>, records: seq<Record>, values: seq<u32>, pDst: u32,
      extra: nat, lo: nat, hi: nat, i: nat, o: u16)
    requires pDst + REACH <= BUS32 && Applied(states, records, values, pDst, extra)
    requires Memo(orig, states[0]) && Reserved(orig, states[0], lo, hi) && PageIn(records, pDst, lo, hi)
    requires i < |records| && o in Offsets(records[i].source) && records[i].kind == SELF_RELATIVE
    requires ClearSite(PageWrites(records, values, pDst), SourceWrite(records, values, pDst, i, o), 4)
    requires records[i].target.Ordinal? && records[i].additive.Value() == 0 && values[i] != 0
    ensures Memo(orig, states[|records|])
    ensures Locate(states[0], ModuleOf(records[i].target), records[i].target.importId.Value()).Word?
    ensures var p := Locate(states[0], ModuleOf(records[i].target), records[i].target.importId.Value());
            IsWord(orig, p.table, p.index) && BytesAt(states[|records|].mem, values[i],
              ThunkBytes(orig[p.table][p.index]))
    ensures Wrap32(pDst + o + 4 + Read32(states[|records|].mem, pDst + o)) == values[i]
       <==> values[i] != Wrap32(pDst + o + 4) || Read32(states[0].mem, pDst + o) == 0
  {
    hide RecordDone, Reserved, PageWrites, AllInside, PerformAll, AgreeIn, ClearSite, PageIn;
    hide Locate, SiteWrite, SourcesIn, BytesAt, Read32;
    PageDone(orig, states, records, values, pDst, extra, lo, hi);
    assert Answered(orig, states[|records|], states[0], records[i].target, values[i]);
    SourceIsDone(orig, states, records, values, pDst, extra, lo, hi, i, o);
    WrapSmall(values[i]);
    ZeroBytes(states[0].mem, pDst + o);
    NextAddress(pDst + o + 4, values[i]);
    ZeroDword(states[0].mem, pDst + o);
  }

  lemma ZeroDword(m: Memory, a: u32)
    requires |m| == BUS32 + SLACK && a + 6 <= BUS32
    ensures FieldIsZero(m, a, SELF_RELATIVE) <==> Read32(m, a) == 0
  {
    ZeroBytes(m, a);
    hide Read32;
  }
}
