/** The page-frame allocator of locutus/os2mem.c: a bitmap, a word-skipping search for a free page, and first-fit
    allocation. */
module PageFrames {
  import opened Words

  const WORD := 32
  /** The bitmap's own words and pages. */
  const OWN_WORDS := 4096
  const OWN_PAGES := 131072
  /** The bound the scanning loops compare page numbers with. */
  const SCAN_BOUND := 4096 * 4096 * 32

  /** `NotFound` is the NULL return, `SpinsForever` a loop that never advances, `OffBitmap` a read past the memory that
      holds the bitmap. */
  datatype Scan = Found(page: nat) | NotFound | SpinsForever | OffBitmap

  // ----- What the scans mean, on the taken/free state of every page -----

  ghost predicate AllTakenIn(pages: seq<bool>, lo: int, hi: int)
  {
    forall q :: 0 <= lo <= q < hi && q < |pages| ==> pages[q]
  }

  ghost predicate AllFreeIn(pages: seq<bool>, lo: int, hi: int)
  {
    forall q :: 0 <= lo <= q < hi && q < |pages| ==> !pages[q]
  }

  /** `p` is the first free page from `index` on. */
  ghost predicate LeastFree(pages: seq<bool>, index: nat, p: nat)
  {
    index <= p < |pages| && !pages[p] && AllTakenIn(pages, index, p)
  }

  /** The first page of the bitmap word that holds `index`. */
  function WordStart(index: nat): nat { index - index % WORD }

  ghost predicate WordFull(pages: seq<bool>, index: nat) {
    AllTakenIn(pages, WordStart(index), WordStart(index) + WORD)
  }

  /** Where the second scan starts when the word at `index` is not full: the first loop's bound compares a page
      number with a bit number, so that loop runs for pages below 16 only. */
  function Resume(index: nat): nat { if index < 16 then 32 - index else index }

  /** The word at `index` has a free page, but only below `index`, and the 32 pages from the resumption point on are
      all taken: the scan then neither returns nor advances. */
  ghost predicate Spins(pages: seq<bool>, index: nat)
  {
    && index < |pages| && !WordFull(pages, index)
    && Resume(index) + WORD <= |pages| && AllTakenIn(pages, index, Resume(index) + WORD)
  }

  /** Pages [p, e) are free and page `e` ends the run. */
  ghost predicate FreeRun(pages: seq<bool>, p: nat, e: nat)
  {
    p <= e < |pages| && pages[e] && AllFreeIn(pages, p, e)
  }

  /** Page `p` is free and its run, counted with `extra` more than its length, covers `n` pages. */
  ghost predicate Fits(pages: seq<bool>, p: nat, n: nat, extra: nat)
  {
    p < |pages| && !pages[p] && exists e: nat :: FreeRun(pages, p, e) && n <= e - p + extra
  }

  /** First fit: the least page from `vbase` on that fits. */
  ghost predicate FirstFit(pages: seq<bool>, vbase: nat, n: nat, extra: nat, p: nat)
  {
    vbase <= p && Fits(pages, p, n, extra) && forall q :: vbase <= q < p ==> !Fits(pages, q, n, extra)
  }

  /** The search from `i` finds a run that is too short and goes on behind it, at `next`. */
  ghost predicate GoesOn(pages: seq<bool>, i: nat, next: nat, n: nat, extra: nat)
  {
    exists p: nat, e: nat :: LeastFree(pages, i, p) && FreeRun(pages, p, e) && e - p + extra < n && next == e + extra
  }

  /** The pages a scan searches from: `vbase`, and on from each run that is too short. */
  ghost predicate Trail(pages: seq<bool>, vbase: nat, n: nat, extra: nat, trail: seq<nat>)
  {
    && |trail| > 0 && trail[0] == vbase
    && forall k {:trigger trail[k]} :: 0 < k < |trail| ==> GoesOn(pages, trail[k - 1], trail[k], n, extra)
  }

  /** Page `e` ends a free run that begins at or before it, from `vbase` on. */
  ghost predicate EndsRun(pages: seq<bool>, vbase: nat, e: nat)
  {
    vbase < e < |pages| && !pages[e - 1] && pages[e]
  }

  /** Up to page `p` the scan does not spin: it searches from `vbase` and on from the end of each run. */
  ghost predicate NeverSpins(pages: seq<bool>, vbase: nat, extra: nat, p: nat)
  {
    !Spins(pages, vbase) && forall e: nat :: e < p && EndsRun(pages, vbase, e) ==> !Spins(pages, e + extra)
  }

  /** What a request returns, on the bitmap alone: the first fit, unless the scan spins before it. */
  ghost predicate Succeeds(pages: seq<bool>, vbase: nat, n: nat, extra: nat, p: nat)
  {
    FirstFit(pages, vbase, n, extra, p) && NeverSpins(pages, vbase, extra, p)
  }

  /** How VMMInit leaves the bitmap: of its own pages exactly the first 16 are taken. */
  ghost predicate Initial(pages: seq<bool>) { Packed(pages, 16) }

  /** Of the bitmap's own pages exactly the first `s` are taken. */
  ghost predicate Packed(pages: seq<bool>, s: nat)
  {
    OWN_PAGES <= |pages| && forall p :: 0 <= p < OWN_PAGES ==> (pages[p] <==> p < s)
  }

  /** Some page from `lo` on is taken. */
  ghost predicate TakenBehind(pages: seq<bool>, lo: nat) { exists t: nat :: lo <= t < |pages| && pages[t] }

  function Last(trail: seq<nat>): nat
    requires |trail| > 0
  {
    trail[|trail| - 1]
  }

  /** From `i` on every page is taken, or the first free run has no end. */
  ghost predicate LeavesBitmap(pages: seq<bool>, i: nat)
  {
    AllTakenIn(pages, i, |pages|) || exists p: nat :: LeastFree(pages, i, p) && AllFreeIn(pages, p, |pages|)
  }

  function Marked(pages: seq<bool>, p: nat, n: nat): seq<bool>
  {
    seq(|pages|, i requires 0 <= i < |pages| => pages[i] || p <= i < p + n)
  }

  /** The allocator's state. The first 4096 words are PFBitmap; the others are the host memory that follows it, which a
      scan may read and an allocation may mark. */
  class FrameAllocator {
    const bitmap: array<Bits32>
    /** Whether NumberOfPagesFreeHere returns the run length, as intended, or one more, as written. */
    const repaired: bool

    ghost predicate Valid()
      reads this
    {
      OWN_WORDS <= bitmap.Length < 4096 * 4096
    }

    ghost function Pages(): seq<bool>
      reads this, bitmap
      requires Valid()
    {
      seq(WORD * bitmap.Length, p requires 0 <= p < WORD * bitmap.Length reads this,
        bitmap => bitmap[p / WORD][p % WORD])
    }

    function Extra(): nat { if repaired then 0 else 1 }

    /** VMMInit: of the bitmap's own pages exactly 0 to 15 are taken; the words behind it are what they were. */
    constructor (behind: seq<Bits32>, repaired: bool)
      requires OWN_WORDS + |behind| < 4096 * 4096
      ensures Valid() && fresh(bitmap) && this.repaired == repaired
      ensures |Pages()| == OWN_PAGES + WORD * |behind| && Initial(Pages())
      ensures forall p :: OWN_PAGES <= p < |Pages()| ==>
          Pages()[p] == behind[(p - OWN_PAGES) / WORD][(p - OWN_PAGES) % WORD]
    {
      hide ToBits;
      this.repaired := repaired;
      bitmap := new Bits32[OWN_WORDS + |behind|](i requires i >= 0 =>
        if i < OWN_WORDS || i >= OWN_WORDS + |behind| then seq(WORD, k => false) else behind[i - OWN_WORDS]);
      new;
      bitmap[0] := ToBits(0xFFFF);
      LowHalfSet();
      forall p | 0 <= p < OWN_PAGES ensures Pages()[p] <==> p < 16 {
        if p < WORD { DivModUnique(p, 0, p, WORD); }
      }
      forall p | OWN_PAGES <= p < |Pages()|
        ensures Pages()[p] == behind[(p - OWN_PAGES) / WORD][(p - OWN_PAGES) % WORD] {
        var (w, k) := ((p - OWN_PAGES) / WORD, (p - OWN_PAGES) % WORD);
        DivModUnique(p, w + OWN_WORDS, k, WORD);
      }
    }

    /** PFStatus. */
    predicate Status(p: nat)
      reads this, bitmap
      requires Valid() && p < WORD * bitmap.Length
      ensures Status(p) == Pages()[p]
    {
      bitmap[p / WORD][p % WORD]
    }

    /** PFDword(p) == -1. */
    predicate FullWord(p: nat)
      reads this, bitmap
      requires Valid() && p < WORD * bitmap.Length
      ensures FullWord(p) <==> WordFull(Pages(), p)
    {
      WordOfPage(p);
      forall k :: 0 <= k < WORD ==> bitmap[p / WORD][k]
    }

    lemma WordOfPage(p: nat)
      requires Valid() && p < WORD * bitmap.Length
      ensures (forall k :: 0 <= k < WORD ==> bitmap[p / WORD][k]) <==> WordFull(Pages(), p)
    {
      var (w, base) := (p / WORD, WordStart(p));
      assert base == WORD * w;
      forall k | 0 <= k < WORD ensures Pages()[base + k] == bitmap[w][k] {
        DivModUnique(base + k, w, k, WORD);
      }
      if WordFull(Pages(), p) {
        forall k | 0 <= k < WORD ensures bitmap[w][k] {
          assert Pages()[base + k];
        }
      }
      if forall k :: 0 <= k < WORD ==> bitmap[w][k] {
        forall q | base <= q < base + WORD ensures Pages()[q] {
          assert Pages()[base + (q - base)] == bitmap[w][q - base];
        }
      }
    }

    /** The word-skipping search finds what the page-by-page search would, unless it spins or leaves the bitmap. */
    method FindFirstFreePage(index: u32) returns (r: Scan)
      requires Valid()
      ensures r.Found? ==> LeastFree(Pages(), index, r.page)
      ensures !r.NotFound?
      ensures r.SpinsForever? <==> Spins(Pages(), index)
      ensures r.OffBitmap? <==> !Spins(Pages(), index) && AllTakenIn(Pages(), index, |Pages()|)
    {
      ghost var pages := Pages();
      var n := WORD * bitmap.Length;
      var cur: nat := index;
      if cur >= n { return OffBitmap; }
      var full := FullWord(cur);
      if full {
        cur := cur + (WORD - cur % WORD);
      } else {
        while cur < WORD - index % WORD
          invariant index <= cur <= if index < 16 then Resume(index) else index
          invariant AllTakenIn(pages, index, cur)
        {
          if !Status(cur) { return Found(cur); }
          cur := cur + 1;
        }
      }
      while cur < SCAN_BOUND
        invariant index <= cur <= n && AllTakenIn(pages, index, cur)
        invariant if full then cur % WORD == 0 else cur == Resume(index) && !WordFull(pages, index)
      {
        if cur >= n { return OffBitmap; }
        if FullWord(cur) {
          cur := cur + WORD;
        } else {
          r := ScanWord(cur);
          SearchGoesOn(pages, index, cur);
          return;
        }
      }
    }

    /** The page-by-page scan of 32 pages: it returns a free one, leaves the bitmap, or else makes the search spin. */
    method ScanWord(cur: nat) returns (r: Scan)
      requires Valid()
      ensures r.Found? ==> LeastFree(Pages(), cur, r.page) && r.page < cur + WORD
      ensures r.OffBitmap? ==> cur + WORD > |Pages()| && AllTakenIn(Pages(), cur, |Pages()|)
      ensures r.SpinsForever? ==> cur + WORD <= |Pages()| && AllTakenIn(Pages(), cur, cur + WORD)
      ensures !r.NotFound?
    {
      var i := cur;
      while i < cur + WORD
        invariant cur <= i <= cur + WORD
        invariant i <= WORD * bitmap.Length || i == cur
        invariant AllTakenIn(Pages(), cur, i)
      {
        if i >= WORD * bitmap.Length { return OffBitmap; }
        if !Status(i) { return Found(i); }
        i := i + 1;
      }
      return SpinsForever;
    }

    /** The length of the run of free pages at `index`, or one more as written; none when the run leaves the bitmap. */
    method NumberOfPagesFreeHere(index: nat) returns (inBitmap: bool, count: nat)
      requires Valid()
      ensures inBitmap ==> count >= Extra() && FreeRun(Pages(), index, index + count - Extra())
      ensures !inBitmap ==> AllFreeIn(Pages(), index, |Pages()|)
    {
      var i, n := index, 0;
      while i < WORD * bitmap.Length && !Status(i)
        invariant i == index + n && AllFreeIn(Pages(), index, i)
      {
        i, n := i + 1, n + 1;
      }
      if i >= WORD * bitmap.Length { return false, 0; }
      i := i + 1;
      return true, if repaired then n else i - index;
    }

    /** The scan finds the first fit, or ends where the trail of runs that are too short leads it: at a page where the
        search spins, or behind which it leaves the bitmap. */
    method VMMScanAddressSpace(vbase: u32, nPages: u32) returns (r: Scan, ghost trail: seq<nat>)
      requires Valid()
      ensures Trail(Pages(), vbase, nPages, Extra(), trail)
      ensures forall p: nat :: r == Found(p) <==> Succeeds(Pages(), vbase, nPages, Extra(), p)
      ensures r.NotFound? <==> vbase >= SCAN_BOUND
      ensures r.SpinsForever? <==> vbase < SCAN_BOUND && Spins(Pages(), Last(trail))
      ensures r.OffBitmap? <==> vbase < SCAN_BOUND && !Spins(Pages(), Last(trail)) && LeavesBitmap(Pages(), Last(trail))
    {
      hide LeastFree, FreeRun, Fits, AllTakenIn, AllFreeIn, NoFit, Spins, GoesOn, Trail, LeavesBitmap, FirstFit,
        Succeeds, Scanned;
      ghost var pages := Pages();
      var cur: nat := vbase;
      trail := [vbase];
      NothingScanned(pages, vbase, nPages, Extra());
      while cur < SCAN_BOUND
        invariant vbase <= cur
        invariant cur == vbase || cur <= |pages|
        invariant NoFit(pages, vbase, cur, nPages, Extra())
        invariant Scanned(pages, vbase, cur, Extra())
        invariant |trail| > 0 && Trail(pages, vbase, nPages, Extra(), trail) && Last(trail) == cur
        decreases SCAN_BOUND - cur
      {
        var temp := FindFirstFreePage(cur);
        if !temp.Found? {
          TakenToTheEnd(pages, cur);
          NoneSucceeds(pages, vbase, cur, nPages, Extra());
          return temp, trail;
        }
        var inBitmap, count := NumberOfPagesFreeHere(temp.page);
        if !inBitmap {
          FreeToTheEnd(pages, cur, temp.page);
          NoneSucceeds(pages, vbase, cur, nPages, Extra());
          return OffBitmap, trail;
        }
        ghost var e := temp.page + count - Extra();
        StaysInBitmap(pages, cur, temp.page, e);
        if count >= nPages {
          FirstFound(pages, vbase, cur, temp.page, e, nPages, Extra());
          FoundSucceeds(pages, vbase, cur, temp.page, e, nPages, Extra());
          return temp, trail;
        }
        ScansOn(pages, vbase, cur, temp.page, e, Extra());
        NoneYet(pages, vbase, cur, temp.page, e, nPages, Extra());
        cur := temp.page + count;
        RunIsShort(pages, Last(trail), temp.page, e, cur, nPages, Extra());
        LongerTrail(pages, vbase, nPages, Extra(), trail, cur);
        trail := trail + [cur];
      }
      NoneBeyond(pages, vbase, nPages, Extra());
      return NotFound, trail;
    }

    /** Mark `nPages` pages from `vbase` on; committing them on the host is not modelled. */
    method VMMReserveRegion(vbase: nat, nPages: nat)
      requires Valid() && vbase + nPages <= |Pages()|
      modifies bitmap
      ensures Pages() == Marked(old(Pages()), vbase, nPages)
    {
      ghost var pages := Pages();
      var i := 0;
      while i < nPages
        invariant i <= nPages && Pages() == Marked(pages, vbase, i)
      {
        MarkPageA(vbase + i);
        assert Marked(Marked(pages, vbase, i), vbase + i, 1) == Marked(pages, vbase, i + 1);
        i := i + 1;
      }
    }

    method MarkPageA(p: nat)
      requires Valid() && p < |Pages()|
      modifies bitmap
      ensures Pages() == Marked(old(Pages()), p, 1)
    {
      bitmap[p / WORD] := bitmap[p / WORD][p % WORD := true];
      forall q | 0 <= q < |Pages()| ensures Pages()[q] == (old(Pages())[q] || q == p) {
        SamePage(p, q);
      }
    }

    /** Allocate at the first fit and mark exactly its pages; a failed scan, and page 0, mark nothing. */
    method VMMAllocPages(vbase: u32, nPages: u32) returns (r: Scan)
      requires Valid()
      modifies bitmap
      ensures forall p: nat :: r == Found(p) <==> Succeeds(old(Pages()), vbase, nPages, Extra(), p)
      ensures Pages() == if r.Found? && r.page != 0 then Marked(old(Pages()), r.page, nPages) else old(Pages())
    {
      ghost var trail;
      r, trail := VMMScanAddressSpace(vbase, nPages);
      if !r.Found? || r.page == 0 { return; }
      assert Succeeds(Pages(), vbase, nPages, Extra(), r.page);
      FitStaysInBitmap(Pages(), r.page, nPages, Extra());
      VMMReserveRegion(r.page, nPages);
    }
  }

  // ----- The scan's steps -----

  lemma NothingScanned(pages: seq<bool>, vbase: nat, n: nat, extra: nat)
    ensures NoFit(pages, vbase, vbase, n, extra) && Trail(pages, vbase, n, extra, [vbase])
        && Scanned(pages, vbase, vbase, extra)
  {
  }

  lemma TakenToTheEnd(pages: seq<bool>, i: nat)
    ensures AllTakenIn(pages, i, |pages|) ==> LeavesBitmap(pages, i)
  {
  }

  lemma FreeToTheEnd(pages: seq<bool>, i: nat, p: nat)
    requires LeastFree(pages, i, p) && AllFreeIn(pages, p, |pages|)
    ensures LeavesBitmap(pages, i)
  {
  }

  /** A search whose first free run ends in the bitmap does not leave it. */
  lemma StaysInBitmap(pages: seq<bool>, i: nat, p: nat, e: nat)
    requires LeastFree(pages, i, p) && FreeRun(pages, p, e)
    ensures !LeavesBitmap(pages, i)
  {
    forall q: nat | LeastFree(pages, i, q) ensures q == p {
    }
  }

  lemma FirstFound(pages: seq<bool>, vbase: nat, i: nat, p: nat, e: nat, n: nat, extra: nat)
    requires vbase <= i && NoFit(pages, vbase, i, n, extra) && LeastFree(pages, i, p) && FreeRun(pages, p, e)
        && n <= e - p + extra
    ensures FirstFit(pages, vbase, n, extra, p)
  {
    TakenDoNotFit(pages, i, p, n, extra);
  }

  lemma NoneYet(pages: seq<bool>, vbase: nat, i: nat, p: nat, e: nat, n: nat, extra: nat)
    requires vbase <= i && NoFit(pages, vbase, i, n, extra) && LeastFree(pages, i, p) && FreeRun(pages, p, e)
        && e - p + extra < n
    ensures i <= p < e < |pages|
    ensures NoFit(pages, vbase, e + 1, n, extra) && NoFit(pages, vbase, e, n, extra)
  {
    TakenDoNotFit(pages, i, p, n, extra);
    RunDoesNotFit(pages, p, e, n, extra);
  }

  lemma RunIsShort(pages: seq<bool>, i: nat, p: nat, e: nat, next: nat, n: nat, extra: nat)
    requires LeastFree(pages, i, p) && FreeRun(pages, p, e) && e - p + extra < n && next == e + extra
    ensures GoesOn(pages, i, next, n, extra)
  {
  }

  lemma LongerTrail(pages: seq<bool>, vbase: nat, n: nat, extra: nat, trail: seq<nat>, next: nat)
    requires Trail(pages, vbase, n, extra, trail) && GoesOn(pages, Last(trail), next, n, extra)
    ensures Trail(pages, vbase, n, extra, trail + [next])
  {
    hide GoesOn;
    var longer := trail + [next];
    forall k | 0 < k < |longer| ensures GoesOn(pages, longer[k - 1], longer[k], n, extra) {
      if k < |trail| { assert GoesOn(pages, trail[k - 1], trail[k], n, extra); }
    }
  }

  /** A search that goes on from `cur`, everything before being taken, is a search from `index`. */
  lemma SearchGoesOn(pages: seq<bool>, index: nat, cur: nat)
    requires index <= cur && AllTakenIn(pages, index, cur)
    ensures forall p: nat :: LeastFree(pages, cur, p) ==> LeastFree(pages, index, p)
    ensures forall hi: nat :: AllTakenIn(pages, cur, hi) ==> AllTakenIn(pages, index, hi)
  {
  }

  /** The scan has come to `cur`, the start or the end of a run, without spinning. */
  ghost predicate Scanned(pages: seq<bool>, vbase: nat, cur: nat, extra: nat)
  {
    && (cur == vbase || (cur > vbase + extra && EndsRun(pages, vbase, cur - extra) && !Spins(pages, vbase)))
    && forall e: nat :: EndsRun(pages, vbase, e) && e + extra < cur ==> !Spins(pages, e + extra)
  }

  /** Between two places that the scan searches from no other run ends. */
  lemma NoRunBetween(pages: seq<bool>, vbase: nat, cur: nat, p: nat, e: nat, extra: nat, f: nat)
    requires extra <= 1 && Scanned(pages, vbase, cur, extra) && LeastFree(pages, cur, p) && AllFreeIn(pages, p, e)
        && p <= e <= |pages|
    ensures EndsRun(pages, vbase, f) && f < e ==> f + extra <= cur
  {
    hide Spins;
  }

  lemma ScansOn(pages: seq<bool>, vbase: nat, cur: nat, p: nat, e: nat, extra: nat)
    requires extra <= 1 && Scanned(pages, vbase, cur, extra) && !Spins(pages, cur) && LeastFree(pages, cur, p)
        && FreeRun(pages, p, e)
    requires vbase <= cur
    ensures Scanned(pages, vbase, e + extra, extra)
  {
    hide Spins;
    forall f: nat | EndsRun(pages, vbase, f) && f + extra < e + extra ensures !Spins(pages, f + extra) {
      NoRunBetween(pages, vbase, cur, p, e, extra, f);
    }
  }

  lemma FoundSucceeds(pages: seq<bool>, vbase: nat, cur: nat, p: nat, e: nat, n: nat, extra: nat)
    requires extra <= 1 && Scanned(pages, vbase, cur, extra) && !Spins(pages, cur) && LeastFree(pages, cur, p)
        && FreeRun(pages, p, e)
    requires FirstFit(pages, vbase, n, extra, p)
    ensures forall q: nat :: q == p <==> Succeeds(pages, vbase, n, extra, q)
  {
    hide Spins, Fits;
    forall f: nat | f < p && EndsRun(pages, vbase, f) ensures !Spins(pages, f + extra) {
      NoRunBetween(pages, vbase, cur, p, e, extra, f);
    }
  }

  lemma NoneSucceeds(pages: seq<bool>, vbase: nat, cur: nat, n: nat, extra: nat)
    requires vbase <= cur && Scanned(pages, vbase, cur, extra) && NoFit(pages, vbase, cur, n, extra)
    requires Spins(pages, cur) || LeavesBitmap(pages, cur)
    ensures forall p: nat :: !Succeeds(pages, vbase, n, extra, p)
  {
    hide Spins;
    forall p: nat | FirstFit(pages, vbase, n, extra, p) ensures !NeverSpins(pages, vbase, extra, p) {
      assert p >= cur && !pages[p];
      var e: nat :| FreeRun(pages, p, e);
      if LeavesBitmap(pages, cur) { FitIsInside(pages, cur, p, e); }
    }
  }

  lemma FitIsInside(pages: seq<bool>, i: nat, p: nat, e: nat)
    requires i <= p < |pages| && !pages[p] && FreeRun(pages, p, e)
    ensures !LeavesBitmap(pages, i)
  {
    forall q: nat | LeastFree(pages, i, q) ensures q <= p {
    }
  }

  lemma NoneBeyond(pages: seq<bool>, vbase: nat, n: nat, extra: nat)
    ensures vbase >= |pages| ==> forall p: nat :: !Succeeds(pages, vbase, n, extra, p)
  {
  }

  lemma SamePage(p: nat, q: nat)
    ensures p / WORD == q / WORD && p % WORD == q % WORD <==> p == q
  {
  }

  lemma FitStaysInBitmap(pages: seq<bool>, p: nat, n: nat, extra: nat)
    requires extra <= 1 && Fits(pages, p, n, extra)
    ensures p + n <= |pages|
  {
  }

  ghost predicate NoFit(pages: seq<bool>, lo: nat, hi: nat, n: nat, extra: nat)
  {
    forall q: nat :: lo <= q < hi ==> !Fits(pages, q, n, extra)
  }

  lemma TakenDoNotFit(pages: seq<bool>, lo: nat, hi: nat, n: nat, extra: nat)
    requires AllTakenIn(pages, lo, hi)
    ensures NoFit(pages, lo, hi, n, extra)
  {
  }

  /** No page of a run that is too short fits, nor does the page that ends it. */
  lemma RunDoesNotFit(pages: seq<bool>, p: nat, e: nat, n: nat, extra: nat)
    requires FreeRun(pages, p, e) && e - p + extra < n
    ensures NoFit(pages, p, e + 1, n, extra)
  {
    forall q: nat, f: nat | p <= q <= e && FreeRun(pages, q, f) ensures f <= e {
      RunEndUnique(pages, q, e, f);
    }
  }

  lemma RunEndUnique(pages: seq<bool>, p: nat, e: nat, f: nat)
    requires FreeRun(pages, p, e) && FreeRun(pages, p, f)
    ensures e == f
  {
  }

  lemma LowHalfSet()
    ensures forall k :: 0 <= k < 32 ==> (ToBits(0xFFFF)[k] <==> k < 16)
  {
    assert Pow2(16) == 0x1_0000 by { assert Pow2(8) == 0x100; }
    forall k | 0 <= k < 32 ensures ToBits(0xFFFF)[k] <==> k < 16 {
      LowBits(16, 32, k);
    }
  }

  lemma {:induction false} LowBits(m: nat, n: nat, k: nat)
    requires k < n
    ensures BitsOf(Pow2(m) - 1, n)[k] <==> k < m
  {
    if k == 0 {
    } else if m > 0 {
      assert (Pow2(m) - 1) / 2 == Pow2(m - 1) - 1;
      LowBits(m - 1, n - 1, k - 1);
    } else {
      assert BitsOf(0, n) == [false] + BitsOf(0, n - 1);
      assert Pow2(0) - 1 == 0;
      LowBits(0, n - 1, k - 1);
    }
  }

  // ----- Sequences of allocations -----

  datatype Region = Region(base: nat, count: nat)

  predicate Covers(r: Region, p: nat) { r.base <= p < r.base + r.count }

  /** The pages of a region that the scan saw free: all of them with the repaired count, all but the last as
      written, and the first in either case. */
  predicate Guaranteed(r: Region, extra: nat, p: nat) { Covers(r, p) && (p == r.base || p + extra < r.base + r.count) }

  ghost predicate Allocates(before: seq<bool>, after: seq<bool>, vbase: nat, r: Region, extra: nat)
  {
    Succeeds(before, vbase, r.count, extra, r.base) && after == Marked(before, r.base, r.count)
  }

  /** A run of successful VMMAllocPages calls: the bitmap before and after each, the requests and the results. */
  ghost predicate History(states: seq<seq<bool>>, vbases: seq<nat>, regions: seq<Region>, extra: nat)
  {
    && |states| == |regions| + 1 && |vbases| == |regions|
    && forall i {:trigger regions[i]} :: 0 <= i < |regions| ==>
      Allocates(states[i], states[i + 1], vbases[i], regions[i], extra)
  }

  lemma GuaranteedWasFree(before: seq<bool>, vbase: nat, r: Region, extra: nat, p: nat)
    requires extra <= 1 && FirstFit(before, vbase, r.count, extra, r.base) && Guaranteed(r, extra, p)
    ensures p < |before| && !before[p]
  {
  }

  lemma {:induction false} TakenStaysTaken(states: seq<seq<bool>>, vbases: seq<nat>, regions: seq<Region>, extra: nat,
                                           i: nat, j: nat, p: nat)
    requires History(states, vbases, regions, extra) && i <= j < |states| && p < |states[i]|
    ensures p < |states[j]| && (states[i][p] ==> states[j][p])
    decreases j - i
  {
    if i < j {
      assert Allocates(states[i], states[i + 1], vbases[i], regions[i], extra);
      TakenStaysTaken(states, vbases, regions, extra, i + 1, j, p);
    }
  }

  /** Over any sequence of allocations, no guaranteed page of a region belongs to an earlier region or was taken to
      begin with. With the repaired count this says that regions are pairwise disjoint. */
  lemma RegionsAreDisjoint(states: seq<seq<bool>>, vbases: seq<nat>, regions: seq<Region>, extra: nat, j: nat, p: nat)
    requires extra <= 1 && History(states, vbases, regions, extra) && j < |regions| && Guaranteed(regions[j], extra, p)
    ensures p < |states[0]| && !states[0][p]
    ensures forall i :: 0 <= i < j ==> !Covers(regions[i], p)
  {
    assert Allocates(states[j], states[j + 1], vbases[j], regions[j], extra);
    GuaranteedWasFree(states[j], vbases[j], regions[j], extra, p);
    SameLength(states, vbases, regions, extra, j);
    TakenStaysTaken(states, vbases, regions, extra, 0, j, p);
    forall i: nat | i < j ensures !Covers(regions[i], p) {
      assert Allocates(states[i], states[i + 1], vbases[i], regions[i], extra);
      SameLength(states, vbases, regions, extra, i + 1);
      TakenStaysTaken(states, vbases, regions, extra, i + 1, j, p);
    }
  }

  lemma {:induction false} SameLength(states: seq<seq<bool>>, vbases: seq<nat>, regions: seq<Region>, extra: nat,
      j: nat)
    requires History(states, vbases, regions, extra) && j < |states|
    ensures |states[j]| == |states[0]|
  {
    if j > 0 {
      assert Allocates(states[j - 1], states[j], vbases[j - 1], regions[j - 1], extra);
      SameLength(states, vbases, regions, extra, j - 1);
    }
  }

  /** From a bitmap with the first 64 KB reserved, no region reaches into them. */
  lemma RegionsAvoidReserved(states: seq<seq<bool>>, vbases: seq<nat>, regions: seq<Region>, extra: nat, j: nat)
    requires extra <= 1 && History(states, vbases, regions, extra) && j < |regions|
    requires forall p :: 0 <= p < 16 && p < |states[0]| ==> states[0][p]
    ensures regions[j].count > 0 ==> regions[j].base >= 16
  {
    if regions[j].count > 0 {
      RegionsAreDisjoint(states, vbases, regions, extra, j, regions[j].base);
    }
  }

  // ----- When the count as written overlaps -----

  /** With the count as written, the first fit is free in full exactly when the intended count would pick it too. */
  lemma OvercountExact(before: seq<bool>, vbase: nat, n: nat, p: nat)
    requires FirstFit(before, vbase, n, 1, p)
    ensures p + n <= |before|
    ensures AllFreeIn(before, p, p + n) <==> FirstFit(before, vbase, n, 0, p)
  {
    FitStaysInBitmap(before, p, n, 1);
    var e: nat :| FreeRun(before, p, e) && n <= e - p + 1;
    forall f: nat | FreeRun(before, p, f) ensures f == e { RunEndUnique(before, p, e, f); }
    FitsWithMore(before, n);
    if AllFreeIn(before, p, p + n) {
      assert before[e];
      assert Fits(before, p, n, 0);
    }
  }

  lemma FitsWithMore(pages: seq<bool>, n: nat)
    ensures forall q: nat :: Fits(pages, q, n, 0) ==> Fits(pages, q, n, 1)
  {
    forall q: nat | Fits(pages, q, n, 0) ensures Fits(pages, q, n, 1) {
      var e: nat :| FreeRun(pages, q, e) && n <= e - q;
    }
  }

  lemma FitsFromBefore(pages: seq<bool>, p: nat, e: nat, n: nat, extra: nat)
    requires p > 0 && FreeRun(pages, p, e) && n <= e - p + extra && !pages[p - 1]
    ensures Fits(pages, p - 1, n, extra)
  {
    assert FreeRun(pages, p - 1, e);
  }

  /** A free run of exactly one page less than `n` is met, from `vbase` on, before any run of `n` pages. */
  ghost predicate MeetsTightRun(before: seq<bool>, vbase: nat, n: nat)
  {
    exists q: nat, e: nat :: TightRun(before, vbase, n, q, e)
  }

  ghost predicate TightRun(before: seq<bool>, vbase: nat, n: nat, q: nat, e: nat)
  {
    && vbase <= q < e && FreeRun(before, q, e) && e - q + 1 == n && (q == vbase || before[q - 1])
    && NoFit(before, vbase, q, n, 0)
  }

  /** So a request is given a page that was taken exactly when such a run is met: one can tell from the bitmap, the base
      and the count. */
  lemma OverlapsIffTight(before: seq<bool>, vbase: nat, n: nat, p: nat)
    requires FirstFit(before, vbase, n, 1, p)
    ensures AllFreeIn(before, p, p + n) <==> !MeetsTightRun(before, vbase, n)
  {
    FitStaysInBitmap(before, p, n, 1);
    var e: nat :| FreeRun(before, p, e) && n <= e - p + 1;
    if !AllFreeIn(before, p, p + n) {
      if p > vbase && !before[p - 1] { FitsFromBefore(before, p, e, n, 1); }
      FitsWithMore(before, n);
      assert TightRun(before, vbase, n, p, e);
    }
    forall q: nat, f: nat | TightRun(before, vbase, n, q, f) ensures !AllFreeIn(before, p, p + n) {
      assert Fits(before, q, n, 1);
      if p == q {
        RunEndUnique(before, p, e, f);
      } else if AllFreeIn(before, p, p + n) {
        assert before[e];
        assert Fits(before, p, n, 0);
      }
    }
  }

  // ----- From VMMInit on -----

  /** While the bitmap is packed, a request that lies in it returns exactly when some page behind the bitmap is taken,
      and then the first free page: with nothing taken there the count of free pages runs on into host memory. */
  lemma PackedRequest(pages: seq<bool>, s: nat, vbase: nat, n: nat, extra: nat, p: nat)
    requires extra <= 1 && Packed(pages, s) && s < OWN_PAGES && vbase < OWN_PAGES
    requires (if vbase < s then s else vbase) + n <= OWN_PAGES
    ensures Succeeds(pages, vbase, n, extra, p) <==> TakenBehind(pages, OWN_PAGES) && p == if vbase < s then s
        else vbase
  {
    var base := if vbase < s then s else vbase;
    assert !pages[base] && LeastFree(pages, vbase, base);
    NoSpinWhilePacked(pages, s, vbase);
    if TakenBehind(pages, OWN_PAGES) {
      var t := LeastTaken(pages, OWN_PAGES);
      assert FreeRun(pages, base, t);
      assert Fits(pages, base, n, extra);
    }
    if FirstFit(pages, vbase, n, extra, p) {
      var e: nat :| FreeRun(pages, p, e);
      assert p >= base && pages[e] && e >= OWN_PAGES;
    }
  }

  lemma {:induction false} LeastTaken(pages: seq<bool>, lo: nat) returns (t: nat)
    requires TakenBehind(pages, lo)
    ensures lo <= t < |pages| && pages[t] && AllFreeIn(pages, lo, t)
    decreases |pages| - lo
  {
    if pages[lo] { t := lo; } else { t := LeastTaken(pages, lo + 1); }
  }

  lemma NoSpinWhilePacked(pages: seq<bool>, s: nat, vbase: nat)
    requires Packed(pages, s) && s < OWN_PAGES && vbase < OWN_PAGES
    ensures !Spins(pages, vbase)
  {
    if vbase >= s {
      assert !pages[vbase];
    } else {
      var lo := WordStart(vbase);
      if q: nat :| lo <= q < lo + WORD && q < |pages| && !pages[q] {
        assert q >= s > vbase;
      }
    }
  }

  /** From an index on a word boundary the search never spins. */
  lemma AlignedNeverSpins(pages: seq<bool>, index: nat)
    requires index % WORD == 0 && index >= 16
    ensures !Spins(pages, index)
  {
  }

  function SumOf(counts: seq<nat>): nat { if counts == [] then 0 else counts[0] + SumOf(counts[1..]) }

  /** Regions laid end to end from page `s` on. */
  function EndToEnd(counts: seq<nat>, s: nat): seq<Region>
  {
    if counts == [] then [] else [Region(s, counts[0])] + EndToEnd(counts[1..], s + counts[0])
  }

  /** From VMMInit on, with some page behind the bitmap taken, every list of requests for the pages behind the first 64
      KB is served as long as it fits the bitmap, region after region, with either count. */
  lemma {:induction false} FirstAllocations(pages: seq<bool>, s: nat, counts: seq<nat>, extra: nat)
      returns (states: seq<seq<bool>>)
    requires extra <= 1 && 16 <= s && Packed(pages, s) && TakenBehind(pages, OWN_PAGES)
    requires (forall i :: 0 <= i < |counts| ==> counts[i] > 0) && s + SumOf(counts) <= OWN_PAGES
    ensures History(states, seq(|counts|, i => 16), EndToEnd(counts, s), extra) && states[0] == pages
    ensures Packed(states[|counts|], s + SumOf(counts)) && TakenBehind(states[|counts|], OWN_PAGES)
    decreases counts
  {
    if counts == [] {
      states := [pages];
    } else {
      PackedRequest(pages, s, 16, counts[0], extra, s);
      var next := Marked(pages, s, counts[0]);
      var t: nat :| OWN_PAGES <= t < |pages| && pages[t];
      assert next[t];
      var rest := FirstAllocations(next, s + counts[0], counts[1..], extra);
      states := [pages] + rest;
      HistoryGrows(pages, 16, Region(s, counts[0]), rest, seq(|counts| - 1, i => 16),
        EndToEnd(counts[1..], s + counts[0]), extra);
      assert seq(|counts|, i => 16) == [16] + seq(|counts| - 1, i => 16);
    }
  }

  lemma HistoryGrows(pages: seq<bool>, vbase: nat, r: Region, states: seq<seq<bool>>, vbases: seq<nat>,
      regions: seq<Region>, extra: nat)
    requires History(states, vbases, regions, extra) && Allocates(pages, states[0], vbase, r, extra)
    ensures History([pages] + states, [vbase] + vbases, [r] + regions, extra)
  {
    hide Allocates;
    var (ss, vs, rs) := ([pages] + states, [vbase] + vbases, [r] + regions);
    forall i | 0 <= i < |rs| ensures Allocates(ss[i], ss[i + 1], vs[i], rs[i], extra) {
      if i > 0 { assert Allocates(states[i - 1], states[i], vbases[i - 1], regions[i - 1], extra); }
    }
  }

  lemma OneAllocation(pages: seq<bool>, vbase: nat, r: Region, extra: nat)
    requires Succeeds(pages, vbase, r.count, extra, r.base)
    ensures History([pages, Marked(pages, r.base, r.count)], [vbase], [r], extra)
  {
  }

  /** Two requests after VMMInit with the count as written: page 18 is handed out twice. */
  lemma OvercountOverlaps(pages: seq<bool>)
    requires Initial(pages) && TakenBehind(pages, OWN_PAGES)
    ensures exists states :: History(states, [18, 16], [Region(18, 1), Region(16, 3)], 1) && states[0] == pages
    ensures Covers(Region(18, 1), 18) && Covers(Region(16, 3), 18)
  {
    PackedRequest(pages, 16, 18, 1, 1, 18);
    var next := Marked(pages, 18, 1);
    assert FreeRun(next, 16, 18) && Fits(next, 16, 3, 1);
    assert FirstFit(next, 16, 3, 1, 16);
    assert !Spins(next, 16) by { assert !next[16]; }
    OneAllocation(next, 16, Region(16, 3), 1);
    HistoryGrows(pages, 18, Region(18, 1), [next, Marked(next, 16, 3)], [16], [Region(16, 3)], 1);
    assert [18] + [16] == [18, 16] && [Region(18, 1)] + [Region(16, 3)] == [Region(18, 1), Region(16, 3)];
    assert ([pages] + [next, Marked(next, 16, 3)])[0] == pages;
  }

  /** One request after VMMInit, for pages 20 to 51, and every later request at page 20 spins, with either count. */
  lemma SpinsAfterOneAllocation(pages: seq<bool>, extra: nat)
    requires extra <= 1 && Initial(pages) && TakenBehind(pages, OWN_PAGES)
    ensures var next := Marked(pages, 20, 32);
            History([pages, next], [20], [Region(20, 32)], extra) && Spins(next, 20) && forall n: nat, p: nat ::
              !Succeeds(next, 20, n, extra, p)
  {
    PackedRequest(pages, 16, 20, 32, extra, 20);
    OneAllocation(pages, 20, Region(20, 32), extra);
    var next := Marked(pages, 20, 32);
    assert !next[19] && WordStart(20) <= 19 < WordStart(20) + WORD;
  }
}
