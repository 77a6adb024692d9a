/** core/mmap/addr_space.h and core/mmap/mmap.cpp: placement, unmap and protect over a RangeMap of pages. */
module AddrSpaces {
  import opened Wrappers
  import opened Division
  import opened Increase
  import opened RangeMaps

  datatype MapInfo = MapInfo(prot: bv32, flags: bv32, fd: int, offset: int)
  datatype Error = kOk | kInval

  /** One call of an update callback: byte address, byte length, the info the piece had. */
  datatype Piece = Piece(addr: nat, len: nat, info: MapInfo)

  type Pages = seq<Entry<MapInfo>>

  // ----- page arithmetic -----

  lemma AddrOfPage(addr: nat, ps: nat)
    requires ps > 0 && addr % ps == 0
    ensures addr / ps * ps == addr
  {
  }

  // ----- free runs and their enumeration -----

  /** pages consecutive unmapped pages starting at s fit between lo and hi. */
  ghost predicate FreeRun(es: Pages, lo: nat, hi: nat, s: nat, pages: nat) {
    && lo <= s && s + pages <= hi
    && (forall p: nat :: s <= p < s + pages ==> At(es, p).None?)
  }

  /** st lists every start of a free run exactly once, in increasing order. */
  ghost predicate Enumerates(st: seq<nat>, es: Pages, lo: nat, hi: nat, pages: nat) {
    && Increasing(st)
    && (forall s: nat :: s in st <==> FreeRun(es, lo, hi, s, pages))
  }

  /** The starts of free runs at or after `from`, found by trying every page. */
  ghost function FreeStarts(es: Pages, lo: nat, hi: nat, from: nat, pages: nat): seq<nat>
    decreases hi - from
  {
    if from >= hi then []
    else (if FreeRun(es, lo, hi, from, pages) then [from] else []) + FreeStarts(es, lo, hi, from + 1, pages)
  }

  lemma {:induction false} FreeStartsFrom(es: Pages, lo: nat, hi: nat, from: nat, pages: nat)
    requires pages > 0
    ensures Increasing(FreeStarts(es, lo, hi, from, pages))
    ensures forall s: nat :: s in FreeStarts(es, lo, hi, from, pages) <==> from <= s && FreeRun(es, lo, hi, s, pages)
    decreases hi - from
  {
    if from < hi {
      FreeStartsFrom(es, lo, hi, from + 1, pages);
      var rest := FreeStarts(es, lo, hi, from + 1, pages);
      forall i | 0 <= i < |rest| ensures from < rest[i] {
        assert rest[i] in rest;
      }
    }
  }

  ghost function Positions(g: Gap, pages: nat): seq<nat> {
    if g.start + pages <= g.end then seq(g.end - g.start - pages + 1, i requires 0 <= i => g.start + i) else []
  }

  ghost function Starts(gs: seq<Gap>, pages: nat): seq<nat> {
    if gs == [] then [] else Positions(gs[0], pages) + Starts(gs[1..], pages)
  }

  lemma GapsFrom(gs: seq<Gap>, k: nat, pages: nat)
    requires k < |gs|
    ensures Starts(gs[k..], pages) == Positions(gs[k], pages) + Starts(gs[k + 1..], pages)
  {
    assert gs[k..][1..] == gs[k + 1..];
  }

  ghost predicate Fits(g: Gap, s: nat, pages: nat) { g.start <= s && s + pages <= g.end }

  lemma InPositions(g: Gap, pages: nat, s: nat)
    ensures s in Positions(g, pages) <==> Fits(g, s, pages)
  {
    if Fits(g, s, pages) {
      assert Positions(g, pages)[s - g.start] == s;
    }
  }

  lemma {:induction false} InStarts(gs: seq<Gap>, pages: nat, s: nat)
    ensures s in Starts(gs, pages) <==> exists i :: 0 <= i < |gs| && Fits(gs[i], s, pages)
  {
    if gs != [] {
      InPositions(gs[0], pages, s);
      InStarts(gs[1..], pages, s);
      if i :| 0 <= i < |gs| && Fits(gs[i], s, pages) {
        assert i > 0 ==> Fits(gs[1..][i - 1], s, pages);
      }
    }
  }

  lemma {:induction false} StartsIncreasing(gs: seq<Gap>, pages: nat)
    requires pages > 0
    requires forall i :: 0 <= i < |gs| ==> gs[i].start < gs[i].end
    requires forall i, j :: 0 <= i < j < |gs| ==> gs[i].end <= gs[j].start
    ensures Increasing(Starts(gs, pages))
  {
    if gs != [] {
      StartsIncreasing(gs[1..], pages);
      var x, y := Positions(gs[0], pages), Starts(gs[1..], pages);
      forall i, j | 0 <= i < |x| && 0 <= j < |y| ensures x[i] < y[j] {
        InStarts(gs[1..], pages, y[j]);
      }
    }
  }

  /** A start fits into some gap exactly when a free run starts there. */
  lemma FitsIsFree(gs: seq<Gap>, es: Pages, lo: nat, hi: nat, pages: nat, s: nat)
    requires pages > 0 && GapsOf(gs, es, lo, hi)
    ensures (exists i :: 0 <= i < |gs| && Fits(gs[i], s, pages)) <==> FreeRun(es, lo, hi, s, pages)
  {
    if i :| 0 <= i < |gs| && Fits(gs[i], s, pages) {
      forall p: nat | s <= p < s + pages ensures At(es, p).None? {
        assert InGap(gs[i], p);
      }
    }
    if FreeRun(es, lo, hi, s, pages) {
      assert At(es, s).None?;
      var i :| 0 <= i < |gs| && InGap(gs[i], s);
      assert Fits(gs[i], s, pages);
    }
  }

  /** The positions read off the gaps are exactly the starts that fit, in order. */
  lemma StartsEnumerate(gs: seq<Gap>, es: Pages, lo: nat, hi: nat, pages: nat)
    requires pages > 0 && GapsOf(gs, es, lo, hi)
    ensures Enumerates(Starts(gs, pages), es, lo, hi, pages)
    ensures Starts(gs, pages) == FreeStarts(es, lo, hi, lo, pages)
  {
    StartsIncreasing(gs, pages);
    hide GapsOf, Starts, FreeStarts, Fits;
    forall s: nat ensures s in Starts(gs, pages) <==> FreeRun(es, lo, hi, s, pages) {
      hide FreeRun;
      InStarts(gs, pages, s);
      FitsIsFree(gs, es, lo, hi, pages, s);
    }
    FreeStartsFrom(es, lo, hi, lo, pages);
    IncreasingUnique(Starts(gs, pages), FreeStarts(es, lo, hi, lo, pages));
  }

  // ----- clipping a run of entries to a range -----

  ghost function Clip(m: Pages, start: nat, end: nat): (r: Pages)
    ensures |r| == |m|
  {
    seq(|m|, i requires 0 <= i < |m| =>
      Entry(if m[i].start < start then start else m[i].start, if m[i].end > end then end else m[i].end, m[i].val))
  }

  lemma ClipAtIndex(m: Pages, i: nat, start: nat, end: nat)
    requires i < |m|
    ensures Clip(m, start, end)[i] ==
            Entry(if m[i].start < start then start else m[i].start, if m[i].end > end then end else m[i].end, m[i].val)
  {
  }

  /** The clipped overlapping entries are the map restricted to the range. */
  lemma ClipMeaning(a: Pages, m: Pages, b: Pages, start: nat, end: nat)
    requires Split(a, m, b, start, end) && start < end
    ensures Sorted(Clip(m, start, end))
    ensures forall i :: 0 <= i < |m| ==> start <= Clip(m, start, end)[i].start && Clip(m, start, end)[i].end <= end
    ensures forall p: nat :: At(Clip(m, start, end), p) == if start <= p < end then At(a + m + b, p) else None
  {
    SplitParts(a, m, b);
    var c := Clip(m, start, end);
    forall p: nat ensures At(c, p) == if start <= p < end then At(a + m + b, p) else None {
      AtConcat(a, m, p);
      AtConcat(a + m, b, p);
      if start <= p < end {
        AtNone(a, p);
        AtNone(b, p);
        ClipAt(m, start, end, p);
      } else {
        AtNone(c, p);
      }
    }
  }

  lemma {:induction false} ClipAt(m: Pages, start: nat, end: nat, p: nat)
    requires start <= p < end
    ensures At(Clip(m, start, end), p) == At(m, p)
  {
    if m != [] {
      assert Clip(m, start, end)[1..] == Clip(m[1..], start, end);
      ClipAt(m[1..], start, end, p);
    }
  }

  ghost function Reprot(o: Option<MapInfo>, prot: bv32): Option<MapInfo> {
    if o.Some? then Some(o.value.(prot := prot)) else None
  }

  /** Without randomisation: the first gap that is long enough. */
  method FirstFit(gaps: seq<Gap>, pages: nat) returns (r: Option<nat>)
    requires forall i :: 0 <= i < |gaps| ==> gaps[i].start < gaps[i].end
    ensures r == if Starts(gaps, pages) == [] then None else Some(Starts(gaps, pages)[0])
  {
    for k := 0 to |gaps|
      invariant Starts(gaps[k..], pages) == Starts(gaps, pages)
    {
      GapsFrom(gaps, k, pages);
      if gaps[k].end - gaps[k].start >= pages {
        return Some(gaps[k].start);
      }
    }
    return None;
  }

  /** How many starts all gaps together offer. */
  method CountStarts(gaps: seq<Gap>, pages: nat) returns (total: nat)
    requires forall i :: 0 <= i < |gaps| ==> gaps[i].start < gaps[i].end
    ensures total == |Starts(gaps, pages)|
  {
    total := 0;
    for k := 0 to |gaps|
      invariant total + |Starts(gaps[k..], pages)| == |Starts(gaps, pages)|
    {
      GapsFrom(gaps, k, pages);
      if gaps[k].end - gaps[k].start >= pages {
        total := total + (gaps[k].end - gaps[k].start - pages + 1);
      }
    }
  }

  /** With randomisation: count the positions of all gaps, then walk to the chosen one. */
  method UniformFit(gaps: seq<Gap>, pages: nat, rnd: nat) returns (r: Option<nat>)
    requires forall i :: 0 <= i < |gaps| ==> gaps[i].start < gaps[i].end
    ensures var st := Starts(gaps, pages); r == if st == [] then None else Some(st[rnd % |st|])
  {
    var total := CountStarts(gaps, pages);
    if total == 0 {
      return None;
    }
    var idx: nat := rnd % total;
    for k := 0 to |gaps|
      invariant idx < |Starts(gaps[k..], pages)|
      invariant Starts(gaps[k..], pages)[idx] == Starts(gaps, pages)[rnd % total]
    {
      GapsFrom(gaps, k, pages);
      if gaps[k].end - gaps[k].start >= pages {
        var positions := gaps[k].end - gaps[k].start - pages + 1;
        if idx < positions {
          return Some(gaps[k].start + idx);
        }
        idx := idx - positions;
      }
    }
    assert false; // the return after the last gap is never reached
  }

  /** A byte lies between two page boundaries exactly when its page does. */
  lemma PieceCovers(i: nat, j: nat, a: nat, ps: nat)
    requires ps > 0
    ensures i * ps <= a < j * ps <==> i <= a / ps < j
  {
    var q := a / ps;
    assert a == q * ps + a % ps;
    if i <= q { ProductOrder(i, q, ps); } else { ProductOrder(q + 1, i, ps); }
    if j <= q { ProductOrder(j, q, ps); } else { ProductOrder(q + 1, j, ps); }
    assert (q + 1) * ps == q * ps + ps;
  }

  // ----- the page size -----

  function Pow2(k: nat): (r: nat)
    ensures r > 0
  {
    if k == 0 then 1 else 2 * Pow2(k - 1)
  }

  /** a & b. */
  function BitAnd(a: nat, b: nat): nat {
    if a == 0 || b == 0 then 0 else 2 * BitAnd(a / 2, b / 2) + if a % 2 == 1 && b % 2 == 1 then 1 else 0
  }

  lemma {:induction false} BitAndSelf(a: nat)
    ensures BitAnd(a, a) == a
  {
    if a > 0 {
      BitAndSelf(a / 2);
    }
  }

  /** The test of init. */
  lemma {:induction false} PowerOfTwo(n: nat)
    ensures n > 0 ==> (BitAnd(n, n - 1) == 0 <==> exists k: nat :: n == Pow2(k))
    ensures n == 0 ==> !exists k: nat :: n == Pow2(k)
  {
    if n == 1 {
      assert n == Pow2(0);
    } else if n > 1 && n % 2 == 1 {
      assert n / 2 == (n - 1) / 2;
      BitAndSelf(n / 2);
    } else if n > 1 {
      PowerOfTwo(n / 2);
      assert (n - 1) / 2 == n / 2 - 1 && BitAnd(n, n - 1) == 2 * BitAnd(n / 2, n / 2 - 1);
      if k: nat :| n / 2 == Pow2(k) {
        assert n == Pow2(k + 1);
      }
      forall k: nat | n == Pow2(k) ensures BitAnd(n / 2, n / 2 - 1) == 0 {
        assert k > 0 && n == 2 * Pow2(k - 1);
        assert n / 2 == Pow2(k - 1);
        assert exists j: nat :: n / 2 == Pow2(j);
      }
    }
  }

  /** The loop of init: how far addresses are shifted to give page numbers. */
  method PageShift(pagesize: nat) returns (p2pagesize: nat)
    requires exists k: nat :: pagesize == Pow2(k)
    ensures pagesize == Pow2(p2pagesize)
  {
    p2pagesize := 0;
    ghost var k: nat :| pagesize == Pow2(k);
    var p: nat := pagesize / 2;
    while p > 0
      invariant k >= p2pagesize && (p > 0 ==> k > p2pagesize && p == Pow2(k - p2pagesize - 1))
      invariant p == 0 ==> k == p2pagesize
    {
      p2pagesize := p2pagesize + 1;
      p := p / 2;
    }
  }

  class AddrSpace {
    const base: nat
    const len: nat
    const pagesize: nat
    var aslr: bool
    const regions: RangeMap<MapInfo>

    ghost predicate Valid()
      reads this, regions
    {
      && pagesize > 0
      && (base + len) * pagesize <= 0x1_0000_0000_0000_0000
      && regions.Valid()
      && (forall p: nat :: At(regions.entries, p).Some? ==> base <= p < base + len)
    }

    /** init, for the page-aligned regions it is given: everything unmapped. */
    constructor Init(start: nat, size: nat, pagesize: nat)
      requires pagesize > 0 && (start / pagesize + PageCeil(size, pagesize)) * pagesize <= 0x1_0000_0000_0000_0000
      ensures Valid() && fresh(regions) && regions.entries == [] && !aslr
      ensures base == start / pagesize && len == PageCeil(size, pagesize) && this.pagesize == pagesize
    {
      this.base := start / pagesize;
      this.len := PageCeil(size, pagesize);
      this.pagesize := pagesize;
      aslr := false;
      regions := new RangeMap();
    }

    /** init: refuses a page size that is not a power of two; otherwise everything is unmapped. */
    static method Create(start: nat, size: nat, pagesize: nat) returns (mm: AddrSpace?)
      requires pagesize > 0 ==>
                 (start / pagesize + PageCeil(size, pagesize)) * pagesize <= 0x1_0000_0000_0000_0000
      ensures mm != null <==> exists k: nat :: pagesize == Pow2(k)
      ensures mm != null ==>
                && mm.Valid() && fresh(mm) && fresh(mm.regions) && mm.regions.entries == [] && !mm.aslr
                && mm.pagesize == pagesize && mm.base == start / pagesize && mm.len == PageCeil(size, pagesize)
    {
      PowerOfTwo(pagesize);
      if pagesize == 0 || BitAnd(pagesize, pagesize - 1) != 0 {
        return null;
      }
      var p2pagesize := PageShift(pagesize);
      mm := new AddrSpace.Init(start, size, Pow2(p2pagesize));
    }

    method Reset()
      requires Valid()
      modifies regions
      ensures Valid() && regions.entries == []
    {
      regions.Clear();
    }

    method EnableAslr()
      requires Valid()
      modifies this`aslr
      ensures Valid() && aslr
    {
      aslr := true;
    }

    static function PageCeil(len: nat, ps: nat): nat
      requires ps > 0
    {
      len / ps + if len % ps != 0 then 1 else 0
    }

    function ToPage(addr: nat): nat
      requires pagesize > 0
    {
      addr / pagesize
    }

    function ToPageCeil(len: nat): nat
      requires pagesize > 0
    {
      PageCeil(len, pagesize)
    }

    function ToAddr(page: nat): nat { page * pagesize }

    predicate IsValid(start: nat, pages: nat) {
      && base <= start
      && start - base <= len
      && pages <= len - (start - base)
    }

    /** What every operation on [addr, addr + len) checks before it acts. */
    predicate BadRange(addr: nat, len: nat)
      requires pagesize > 0
    {
      addr % pagesize != 0 || len == 0 || !IsValid(ToPage(addr), ToPageCeil(len))
    }

    /** Every page where a run of `pages` unmapped pages starts, in increasing order. */
    ghost function Candidates(pages: nat): seq<nat>
      reads regions
    {
      FreeStarts(regions.entries, base, base + len, base, pages)
    }

    /** The choice FindFree makes: the lowest candidate, or the one at a uniform index. */
    ghost function Choice(pages: nat, rnd: nat): Option<nat>
      reads this, regions
    {
      var st := Candidates(pages);
      if st == [] then None else Some(if aslr then st[rnd % |st|] else st[0])
    }

    /** Chooses the start of a new mapping; rnd is the random word drawn when placement is randomised. */
    method FindFree(pages: nat, rnd: nat) returns (r: Option<nat>)
      requires Valid() && pages > 0
      ensures r == Choice(pages, rnd)
      ensures r.None? <==> Candidates(pages) == []
      ensures r.Some? ==> r.value in Candidates(pages)
      ensures r.Some? && !aslr ==> forall s :: s in Candidates(pages) ==> r.value <= s
    {
      CandidatesMeaning(pages);
      var gaps := regions.GetGaps(base, base + len);
      StartsEnumerate(gaps, regions.entries, base, base + len, pages);
      if !aslr {
        r := FirstFit(gaps, pages);
      } else {
        r := UniformFit(gaps, pages, rnd);
      }
    }

    lemma CandidatesMeaning(pages: nat)
      requires pages > 0
      ensures Enumerates(Candidates(pages), regions.entries, base, base + len, pages)
      ensures forall s: nat :: s in Candidates(pages) ==>
                IsValid(s, pages) && FreeRun(regions.entries, base, base + len, s, pages)
    {
      FreeStartsFrom(regions.entries, base, base + len, base, pages);
    }

    lemma HintFits(start: nat, pages: nat, taken: bool)
      requires pages > 0
      requires taken <==> exists p: nat :: start <= p < start + pages && At(regions.entries, p).Some?
      ensures IsValid(start, pages) && !taken <==> start in Candidates(pages)
    {
      CandidatesMeaning(pages);
      if IsValid(start, pages) && !taken {
        assert FreeRun(regions.entries, base, base + len, start, pages);
      }
      assert start in Candidates(pages) ==> FreeRun(regions.entries, base, base + len, start, pages);
      assert taken ==> exists p: nat :: start <= p < start + pages && At(regions.entries, p).Some?;
    }

    lemma AlignedAddr(addr: nat)
      requires pagesize > 0 && addr % pagesize == 0
      ensures ToAddr(ToPage(addr)) == addr
    {
      AddrOfPage(addr, pagesize);
    }

    /** A new mapping at the hint if that is free, else where FindFree puts it. */
    method MapAny(hint: nat, len: nat, info: MapInfo, rnd: nat) returns (r: Option<nat>)
      requires Valid()
      modifies regions
      ensures Valid()
      ensures r.None? <==> len == 0 || old(Candidates(ToPageCeil(len))) == []
      ensures r.None? ==> regions.entries == old(regions.entries)
      ensures r.Some? ==>
                if hint != 0 && hint % pagesize == 0 && ToPage(hint) in old(Candidates(ToPageCeil(len)))
                then r.value == hint
                else r.value == ToAddr(old(Choice(ToPageCeil(len), rnd)).value)
      ensures r.Some? && !aslr && r.value != hint ==>
                forall s :: s in old(Candidates(ToPageCeil(len))) ==> ToPage(r.value) <= s
      ensures r.Some? ==> !BadRange(r.value, len) && ToPage(r.value) in old(Candidates(ToPageCeil(len)))
      ensures r.Some? ==> FreeRun(old(regions.entries), base, base + this.len, ToPage(r.value), ToPageCeil(len))
      ensures r.Some? ==> forall p: nat :: At(regions.entries, p) ==
                            if ToPage(r.value) <= p < ToPage(r.value) + ToPageCeil(len) then Some(info)
                            else At(old(regions.entries), p)
    {
      if len == 0 {
        return None;
      }
      r := AtHint(hint, len, info);
      if r.Some? {
        return;
      }
      hide Enumerates, FreeRun, FreeStarts, Canonical, At, BadRange, ToAddr, ToPage, ToPageCeil;
      var found := FindFree(ToPageCeil(len), rnd);
      if found.None? {
        return None;
      }
      var addr := Place(found.value, len, info);
      r := Some(addr);
    }

    /** The hint, if it is aligned and free. */
    method AtHint(hint: nat, len: nat, info: MapInfo) returns (r: Option<nat>)
      requires Valid() && len > 0
      modifies regions
      ensures Valid() && ToPageCeil(len) > 0
      ensures r.Some? <==> hint != 0 && hint % pagesize == 0 && ToPage(hint) in old(Candidates(ToPageCeil(len)))
      ensures r.None? ==> regions.entries == old(regions.entries)
      ensures r.Some? ==>
                && r.value == hint && !BadRange(hint, len)
                && FreeRun(old(regions.entries), base, base + this.len, ToPage(hint), ToPageCeil(len))
                && forall p: nat :: At(regions.entries, p) ==
                                    if ToPage(hint) <= p < ToPage(hint) + ToPageCeil(len) then Some(info)
                                    else At(old(regions.entries), p)
    {
      var pages := ToPageCeil(len);
      assert pages > 0;
      hide Enumerates, FreeRun, FreeStarts, Canonical, At, BadRange, ToAddr, ToPage, ToPageCeil;
      if hint != 0 && hint % pagesize == 0 {
        var start := ToPage(hint);
        var taken := regions.Overlaps(start, start + pages);
        HintFits(start, pages, taken);
        if IsValid(start, pages) && !taken {
          AlignedAddr(hint);
          var addr := Place(start, len, info);
          return Some(addr);
        }
      }
      return None;
    }

    /** The mapping itself, at a candidate page; its byte address is in the region. */
    method Place(start: nat, len: nat, info: MapInfo) returns (addr: nat)
      requires Valid() && len > 0 && start in Candidates(ToPageCeil(len))
      modifies regions
      ensures Valid()
      ensures addr == ToAddr(start) && ToPage(addr) == start && !BadRange(addr, len)
      ensures FreeRun(old(regions.entries), base, base + this.len, start, ToPageCeil(len))
      ensures forall p: nat :: At(regions.entries, p) ==
                               if start <= p < start + ToPageCeil(len) then Some(info) else At(old(regions.entries), p)
    {
      CandidatesMeaning(ToPageCeil(len));
      hide Enumerates, FreeStarts, Canonical, At;
      DivideProduct(start, pagesize);
      regions.Insert(start, start + ToPageCeil(len), info);
      addr := ToAddr(start);
    }

    /** The byte pieces handed to an update callback for the page ranges ps. */
    ghost function PieceOf(e: Entry<MapInfo>): (r: Piece)
      ensures e.start <= e.end ==> r.addr == e.start * pagesize && r.addr + r.len == e.end * pagesize
      ensures r.info == e.val
    {
      var lo, hi := ToAddr(e.start), ToAddr(e.end);
      Piece(lo, if lo <= hi then hi - lo else 0, e.val)
    }

    ghost function Pieces(ps: Pages): seq<Piece> {
      seq(|ps|, i requires 0 <= i < |ps| => PieceOf(ps[i]))
    }

    lemma PiecesAt(ps: Pages, i: nat)
      requires i < |ps|
      ensures |Pieces(ps)| == |ps|
      ensures Pieces(ps)[i] == PieceOf(ps[i])
      ensures Pieces(ps)[..i + 1] == Pieces(ps)[..i] + [Pieces(ps)[i]]
    {
    }

    /** Unmaps a range. The callback, if any, sees log: disjoint pieces that are exactly the mapped
        pages of the range with the info they had. */
    method Unmap(addr: nat, len: nat, ufn: bool) returns (e: Error, log: seq<Piece>, ghost pieces: Pages)
      requires Valid()
      modifies regions
      ensures Valid()
      ensures e == if BadRange(addr, len) then kInval else kOk
      ensures e == kInval ==> regions.entries == old(regions.entries) && log == []
      ensures e == kOk ==> ufn ==> Reports(log, pieces, old(regions.entries), addr, len)
      ensures !ufn ==> log == []
      ensures e == kOk ==> forall p: nat :: At(regions.entries, p) ==
                             if ToPage(addr) <= p < ToPage(addr) + ToPageCeil(len) then None
                             else At(old(regions.entries), p)
    {
      log, pieces := [], [];
      if BadRange(addr, len) {
        return kInval, log, pieces;
      }
      var start, pages := ToPage(addr), ToPageCeil(len);
      var end := start + pages;
      if ufn {
        var overlapping, a, b := regions.GetOverlapping(start, end);
        ClipMeaning(a, overlapping, b, start, end);
        pieces := Clip(overlapping, start, end);
        log := ReportPieces(overlapping, pieces, start, end);
      }
      regions.Remove(start, start + pages);
      e := kOk;
    }

    /** The callback loop of unmap. */
    method ReportPieces(overlapping: Pages, ghost pieces: Pages, start: nat, end: nat) returns (log: seq<Piece>)
      requires pieces == Clip(overlapping, start, end) && Sorted(pieces)
      ensures log == Pieces(pieces)
    {
      log := [];
      for i := 0 to |overlapping|
        invariant log == Pieces(pieces)[..i]
      {
        ClipAtIndex(overlapping, i, start, end);
        PiecesAt(pieces, i);
        var e := overlapping[i];
        var cs := if e.start > start then e.start else start;
        var ce := if e.end < end then e.end else end;
        AddrMonotone(cs, ce);
        log := log + [Piece(ToAddr(cs), ToAddr(ce) - ToAddr(cs), e.val)];
      }
    }

    lemma AddrMonotone(x: nat, y: nat)
      requires x <= y
      ensures ToAddr(x) <= ToAddr(y)
    {
    }

    /** log reports, in order and without overlap, the mapped pages of the range with their info in es. */
    ghost predicate Reports(log: seq<Piece>, pieces: Pages, es: Pages, addr: nat, len: nat)
      requires pagesize > 0
    {
      && log == Pieces(pieces) && Sorted(pieces)
      && (forall p: nat :: At(pieces, p) ==
                             if ToPage(addr) <= p < ToPage(addr) + ToPageCeil(len) then At(es, p) else None)
    }

    /** Some piece of the log covers byte a with that info. */
    ghost predicate Reported(log: seq<Piece>, a: nat, info: MapInfo) {
      exists i :: 0 <= i < |log| && log[i].addr <= a < log[i].addr + log[i].len && log[i].info == info
    }

    /** Byte for byte: what a log reports is what the range had mapped. */
    lemma ReportedBytes(log: seq<Piece>, pieces: Pages, es: Pages, addr: nat, len: nat, a: nat, info: MapInfo)
      requires pagesize > 0 && Reports(log, pieces, es, addr, len)
      ensures Reported(log, a, info) <==>
              ToPage(addr) <= a / pagesize < ToPage(addr) + ToPageCeil(len) && At(es, a / pagesize) == Some(info)
    {
      var p := a / pagesize;
      forall i | 0 <= i < |pieces|
        ensures log[i].info == pieces[i].val
        ensures log[i].addr <= a < log[i].addr + log[i].len <==> Covers(pieces[i], p)
      {
        PieceBytes(pieces, i, a);
      }
      assert |log| == |pieces|;
      hide PieceOf, Pieces, ToPage, ToPageCeil;
      if i :| 0 <= i < |log| && Covers(pieces[i], p) {
        AtSome(pieces, i, p);
      } else {
        AtNone(pieces, p);
      }
    }

    lemma PieceBytes(pieces: Pages, i: nat, a: nat)
      requires pagesize > 0 && i < |pieces| && Sorted(pieces)
      ensures var r := Pieces(pieces)[i];
              r.info == pieces[i].val && (r.addr <= a < r.addr + r.len <==> Covers(pieces[i], a / pagesize))
    {
      PieceCovers(pieces[i].start, pieces[i].end, a, pagesize);
      hide PieceOf;
    }

    /** A mapping at a fixed place, replacing what was there. */
    method MapAt(addr: nat, len: nat, info: MapInfo, ufn: bool)
      returns (r: Option<nat>, log: seq<Piece>, ghost pieces: Pages)
      requires Valid()
      modifies regions
      ensures Valid()
      ensures r == if BadRange(addr, len) then None else Some(addr)
      ensures r.None? ==> regions.entries == old(regions.entries) && log == []
      ensures r.Some? && ufn ==> Reports(log, pieces, old(regions.entries), addr, len)
      ensures r.Some? ==> forall p: nat :: At(regions.entries, p) ==
                            if ToPage(addr) <= p < ToPage(addr) + ToPageCeil(len) then Some(info)
                            else At(old(regions.entries), p)
    {
      log, pieces := [], [];
      if BadRange(addr, len) {
        return None, log, pieces;
      }
      var start, pages := ToPage(addr), ToPageCeil(len);
      var e;
      e, log, pieces := Unmap(addr, len, ufn);
      regions.Insert(start, start + pages, info);
      r := Some(addr);
    }

    method QueryPage(addr: nat) returns (r: Option<MapInfo>)
      requires Valid()
      ensures r == At(regions.entries, ToPage(addr))
    {
      var e := regions.Find(ToPage(addr));
      r := if e.Some? then Some(e.value.val) else None;
    }

    /** Changes the protection of the mapped pages of a range, and nothing else, by removing and
        re-inserting each piece of a snapshot. */
    method Protect(addr: nat, len: nat, prot: bv32, ufn: bool)
      returns (e: Error, log: seq<Piece>, ghost pieces: Pages)
      requires Valid()
      modifies regions
      ensures Valid()
      ensures e == if BadRange(addr, len) then kInval else kOk
      ensures e == kInval ==> regions.entries == old(regions.entries) && log == []
      ensures e == kOk ==> ufn ==> Reports(log, pieces, old(regions.entries), addr, len)
      ensures e == kOk ==> forall p: nat :: At(regions.entries, p) ==
                             if ToPage(addr) <= p < ToPage(addr) + ToPageCeil(len)
                             then Reprot(At(old(regions.entries), p), prot)
                             else At(old(regions.entries), p)
    {
      log, pieces := [], [];
      if BadRange(addr, len) {
        return kInval, log, pieces;
      }
      var start, pages := ToPage(addr), ToPageCeil(len);
      var end := start + pages;
      var overlapping, a, b := regions.GetOverlapping(start, end);
      ClipMeaning(a, overlapping, b, start, end);
      pieces := Clip(overlapping, start, end);
      log := ProtectPieces(overlapping, pieces, start, end, prot, ufn);
      e := kOk;
    }

    /** The loop of protect, over the snapshot of the overlapping entries. */
    method ProtectPieces(overlapping: Pages, ghost pieces: Pages, start: nat, end: nat, prot: bv32, ufn: bool)
      returns (log: seq<Piece>)
      requires Valid() && start <= end && pieces == Clip(overlapping, start, end)
      requires Restricted(pieces, regions.entries, start, end)
      modifies regions
      ensures Valid()
      ensures ufn ==> log == Pieces(pieces)
      ensures Reprotected(regions.entries, old(regions.entries), start, end, prot)
    {
      log := [];
      ghost var was, bound := regions.entries, start;
      ReprotStart(was, start, prot);
      for i := 0 to |overlapping|
        invariant regions.Valid() && start <= bound <= end
        invariant ufn ==> log == Pieces(pieces)[..i]
        invariant bound == if i == 0 then start else pieces[i - 1].end
        invariant Reprotected(regions.entries, was, start, bound, prot)
      {
        hide Canonical, Sorted, At, Reprotected, ToPage, ToAddr, Pieces, PieceOf, Restricted;
        PiecesAt(pieces, i);
        var piece := ProtectPiece(overlapping[i], pieces, i, was, start, end, bound, prot);
        if ufn {
          log := log + [piece];
        }
        bound := pieces[i].end;
      }
      PiecesDone(pieces, was, start, end, bound);
      ReprotDone(regions.entries, was, start, bound, end, prot);
    }

    /** One iteration: the part of entry e inside the range is removed and inserted with the new protection. */
    method ProtectPiece(e: Entry<MapInfo>, ghost pieces: Pages, ghost i: nat, ghost was: Pages,
                        start: nat, end: nat, ghost bound: nat, prot: bv32) returns (piece: Piece)
      requires Valid() && i < |pieces| && Restricted(pieces, was, start, end)
      requires pieces[i] == Entry(if e.start < start then start else e.start, if e.end > end then end else e.end, e.val)
      requires bound == if i == 0 then start else pieces[i - 1].end
      requires Reprotected(regions.entries, was, start, bound, prot)
      modifies regions
      ensures regions.Valid() && bound <= pieces[i].start <= pieces[i].end <= end && start <= bound
      ensures Reprotected(regions.entries, was, start, pieces[i].end, prot)
      ensures piece == PieceOf(pieces[i])
    {
      hide Canonical, Sorted, At, Reprotected, Restricted, ToAddr;
      var cs := if e.start > start then e.start else start;
      var ce := if e.end < end then e.end else end;
      PieceStep(pieces, i, was, start, end, bound);
      AddrMonotone(cs, ce);
      piece := Piece(ToAddr(cs), ToAddr(ce) - ToAddr(cs), e.val);
      ghost var es := regions.entries;
      ProtectOne(cs, ce, e.val.(prot := prot));
      ReprotStep(es, regions.entries, was, start, bound, pieces[i], prot);
    }

    method ProtectOne(start: nat, end: nat, info: MapInfo)
      requires regions.Valid()
      modifies regions
      ensures regions.Valid()
      ensures forall p: nat :: At(regions.entries, p) ==
                               if start <= p < end then Some(info) else At(old(regions.entries), p)
    {
      regions.Remove(start, end);
      regions.Insert(start, end, info);
    }
  }

  /** pieces are the map es restricted to [start, end). */
  ghost predicate Restricted(pieces: Pages, es: Pages, start: nat, end: nat) {
    && Sorted(pieces)
    && (forall i :: 0 <= i < |pieces| ==> start <= pieces[i].start && pieces[i].end <= end)
    && (forall p: nat :: At(pieces, p) == if start <= p < end then At(es, p) else None)
  }

  /** es is was with the protection changed below bound. */
  ghost predicate Reprotected(es: Pages, was: Pages, start: nat, bound: nat, prot: bv32) {
    forall p: nat :: At(es, p) == if start <= p < bound then Reprot(At(was, p), prot) else At(was, p)
  }

  lemma ReprotStart(was: Pages, start: nat, prot: bv32)
    ensures Reprotected(was, was, start, start, prot)
  {
  }

  lemma ReprotStep(es: Pages, now: Pages, was: Pages, start: nat, bound: nat, e: Entry<MapInfo>, prot: bv32)
    requires Reprotected(es, was, start, bound, prot) && start <= bound <= e.start <= e.end
    requires forall p: nat :: start <= bound <= p < e.start ==> At(was, p) == None
    requires forall p: nat :: e.start <= p < e.end ==> At(was, p) == Some(e.val)
    requires forall p: nat :: At(now, p) == if e.start <= p < e.end then Some(e.val.(prot := prot)) else At(es, p)
    ensures Reprotected(now, was, start, e.end, prot)
  {
  }

  lemma ReprotDone(es: Pages, was: Pages, start: nat, bound: nat, end: nat, prot: bv32)
    requires Reprotected(es, was, start, bound, prot) && start <= bound <= end
    requires forall p: nat :: bound <= p < end ==> At(was, p) == None
    ensures Reprotected(es, was, start, end, prot)
  {
  }

  /** Between the pieces of a clipped map nothing is mapped, and each piece has one value. */
  lemma PieceStep(pieces: Pages, i: nat, es: Pages, start: nat, end: nat, bound: nat)
    requires i < |pieces| && Restricted(pieces, es, start, end)
    requires bound == if i == 0 then start else pieces[i - 1].end
    ensures start <= bound <= pieces[i].start < pieces[i].end <= end
    ensures forall p: nat :: start <= bound <= p < pieces[i].start ==> At(es, p) == None
    ensures forall p: nat :: pieces[i].start <= p < pieces[i].end ==> At(es, p) == Some(pieces[i].val)
  {
    forall p: nat | start <= bound <= p < pieces[i].start ensures At(es, p) == None {
      AtNone(pieces, p);
    }
    forall p: nat | pieces[i].start <= p < pieces[i].end ensures At(es, p) == Some(pieces[i].val) {
      AtSome(pieces, i, p);
    }
  }

  lemma PiecesDone(pieces: Pages, es: Pages, start: nat, end: nat, bound: nat)
    requires Restricted(pieces, es, start, end) && start <= bound
    requires bound == if pieces == [] then start else pieces[|pieces| - 1].end
    ensures forall p: nat :: bound <= p < end ==> At(es, p) == None
  {
    forall p: nat | bound <= p < end ensures At(es, p) == None {
      AtNone(pieces, p);
    }
  }
}
