/** core/boxmap.c and the reservation of core/core.c: address space for boxes of one footprint. */
module BoxMaps {
  import opened Wrappers
  import opened Division
  import opened ExtAllocs
  import opened Slots

  const TWO64: nat := 0x1_0000_0000_0000_0000
  const ADDR_REGION_MAX: nat := 16
  /** User addresses lie below this. */
  const LIMIT: nat := 0x8000_0000_0000_0000
  const MAX_ALIGN: nat := 0x4000_0000_0000_0000
  const GB: nat := 0x4000_0000
  const TB: nat := 0x100_0000_0000

  /** What a 64-bit word keeps of a number. */
  function Wrap(x: int): nat { x % TWO64 }

  /** truncp and ceilp. */
  function Trunc(addr: nat, align: nat): nat
    requires align > 0
  {
    addr - addr % align
  }

  function Ceil(addr: nat, align: nat): nat
    requires align > 0
  {
    if addr % align == 0 then addr else Wrap(addr + (align - addr % align))
  }

  class Region {
    const base: nat
    const size: nat
    const alloc: ExtAlloc
    const mapbase: nat
    const mapsize: nat
    var active: nat

    constructor (base: nat, size: nat, alloc: ExtAlloc, mapbase: nat, mapsize: nat)
      ensures this.base == base && this.size == size && this.alloc == alloc && active == 0
      ensures this.mapbase == mapbase && this.mapsize == mapsize
    {
      this.base, this.size, this.alloc, this.mapbase, this.mapsize, active := base, size, alloc, mapbase, mapsize, 0;
    }

    /** The region lies in its mapping with the guard free on either side. */
    ghost predicate Ok(chunk: nat, guard: nat)
    {
      && alloc.Valid() && alloc.chunksize == chunk
      && base == alloc.base * chunk && size == alloc.size * chunk
      && mapbase + guard <= base && base + size + guard <= mapbase + mapsize
    }

    /** Its chunks are a row of slots of k, and it counts the live ones. */
    ghost predicate Holds(row: seq<bool>, k: nat)
      requires alloc.Valid()
      reads this, alloc.bitvec
    {
      Uniform(alloc.Bits(), row, k) && active == Count(row)
    }

    ghost function SlotAddr(q: nat, k: nat): nat { (alloc.base + q * k) * alloc.chunksize }

    /** extalloc_alloc on this region: the first free slot, if there is one. */
    method Take(size: nat, ghost row: seq<bool>, ghost k: nat) returns (p: nat)
      requires alloc.Valid() && k > 0 && size == k * alloc.chunksize && Holds(row, k)
      modifies this, alloc.bitvec
      ensures p == 0 <==> FirstFree(row) == |row|
      ensures p == 0 ==> Holds(row, k)
      ensures p != 0 ==> p == SlotAddr(FirstFree(row), k) && Holds(row[FirstFree(row) := true], k)
    {
      hide Uniform, FirstRun, FreeRun, Filled, FirstFree, Count;
      ghost var bits, q := alloc.Bits(), FirstFree(row);
      DivideProduct(k, alloc.chunksize);
      FirstFitIsFirstFree(bits, row, k);
      if q < |row| {
        FirstIsFree(bits, q * k, k);
      }
      ghost var idx;
      p, idx := alloc.Alloc(size);
      if p != 0 {
        NoFirstRun(bits, row, k, idx);
        FirstRunUnique(bits, idx, q * k, k);
        FillSlot(bits, row, k, q, true);
        CountUpdate(row, q, true);
        active := active + 1;
      }
    }

    /** extalloc_free of a live slot. */
    method Give(base: nat, size: nat, ghost row: seq<bool>, ghost k: nat, ghost q: nat)
      requires alloc.Valid() && size == k * alloc.chunksize && Holds(row, k)
      requires q < |row| && row[q] && base == SlotAddr(q, k)
      modifies this, alloc.bitvec
      ensures Holds(row[q := false], k)
    {
      hide Uniform, Filled, Count;
      ghost var bits := alloc.Bits();
      DivideProduct(k, alloc.chunksize);
      FillSlot(bits, row, k, q, false);
      CountUpdate(row, q, false);
      CountPositive(row, q);
      alloc.Free(base, size, q * k);
      active := active - 1;
    }
  }

  /** What the kernel and the allocator answer in the i-th turn of a reservation. */
  datatype Host = Host(mmap: (nat, nat) -> Option<nat>, memory: nat -> bool, fixed: nat -> bool)

  /** size halved k times. */
  ghost function Halved(size: nat, k: nat): nat { if k == 0 then size else Halved(size / 2, k - 1) }

  lemma {:induction false} HalvedMore(size: nat, k: nat)
    ensures Halved(size, k + 1) == Halved(size, k) / 2
  {
    if k > 0 {
      HalvedMore(size / 2, k - 1);
    }
  }

  lemma {:induction false} HalvedLess(size: nat, k: nat, m: nat)
    requires k <= m
    ensures Halved(size, m) <= Halved(size, k)
    decreases m
  {
    if k < m {
      HalvedMore(size, m - 1);
      HalvedLess(size, k, m - 1);
    }
  }

  class BoxMap {
    const chunk: nat
    const guard: nat
    var regions: seq<Region>
    /** For boxes of k chunks: which slots of each region are taken. */
    ghost var rows: seq<seq<bool>>
    ghost const k: nat

    ghost function Footprint(): set<object>
      reads this
    {
      {this} + (set r: Region | r in regions :: r as object)
      + (set r: Region | r in regions :: r.alloc.bitvec as object)
    }

    /** The regions are disjoint and share no storage. */
    ghost predicate Apart()
      reads this
    {
      && (forall i, j :: 0 <= i < j < |regions| ==>
            regions[i] != regions[j] && regions[i].alloc.bitvec != regions[j].alloc.bitvec)
      && (forall i, j :: 0 <= i < |regions| && 0 <= j < |regions| && i != j ==>
            || regions[i].base + regions[i].size <= regions[j].base
            || regions[j].base + regions[j].size <= regions[i].base)
    }

    ghost predicate Valid()
      reads this, regions, set r: Region | r in regions :: r.alloc.bitvec
    {
      && 0 < chunk <= MAX_ALIGN && guard <= MAX_ALIGN && TWO64 % chunk == 0 && k > 0
      && |rows| == |regions| && |regions| <= ADDR_REGION_MAX
      && (forall i :: 0 <= i < |regions| ==> regions[i].Ok(chunk, guard) && regions[i].Holds(rows[i], k))
      && Apart()
    }

    constructor (chunk: nat, guard: nat, ghost k: nat)
      requires 0 < chunk <= MAX_ALIGN && guard <= MAX_ALIGN && TWO64 % chunk == 0 && k > 0
      ensures Valid() && regions == [] && rows == []
      ensures this.chunk == chunk && this.guard == guard && this.k == k
    {
      this.chunk, this.guard, this.k := chunk, guard, k;
      regions, rows := [], [];
    }

    /** boxmap_active. */
    method Active() returns (total: nat)
      requires Valid()
      ensures total == Total(rows)
    {
      total := 0;
      assert rows[..0] == [];
      for i := 0 to |regions|
        invariant total == Total(rows[..i])
      {
        CapacityAppend(rows[..i], rows[i]);
        assert rows[..i + 1] == rows[..i] + [rows[i]];
        total := total + regions[i].active;
      }
      assert rows[..|rows|] == rows;
    }

    // ----- reserving -----

    /** Is [p, p + n) clear of every region's mapping? */
    predicate Clear(p: nat, n: nat)
      reads this
    {
      forall i :: 0 <= i < |regions| ==>
        p + n <= regions[i].mapbase || regions[i].mapbase + regions[i].mapsize <= p
    }

    /** The kernel's answer to a request for n bytes can be used: memory below the limit and not in use. */
    predicate Usual(answer: Option<nat>, n: nat)
      reads this
    {
      0 < n && answer.Some? && 0 < answer.value && answer.value + n <= LIMIT && Clear(answer.value, n)
    }

    /** mmap at an address of the kernel's choice: it may fail, and never returns memory in use. */
    method Mmap(size: nat, answer: Option<nat>) returns (p: Option<nat>)
      ensures p == if Usual(answer, size) then answer else None
    {
      p := if Usual(answer, size) then answer else None;
    }

    /** reserve: halves the request until the kernel grants it or it falls below the threshold. Every size
        is asked for once. */
    method Reserve(size: nat, threshold: nat, mmap: nat -> Option<nat>) returns (got: nat, base: nat)
      requires threshold > 0
      ensures got > 0 ==> threshold <= got <= size && Usual(mmap(got), got) && mmap(got) == Some(base)
      ensures got > 0 ==> exists k: nat :: got == Halved(size, k)
                                           && forall j: nat :: j < k ==> !Usual(mmap(Halved(size, j)), Halved(size, j))
      ensures got == 0 ==> forall k: nat :: Halved(size, k) >= threshold ==>
                                              !Usual(mmap(Halved(size, k)), Halved(size, k))
    {
      got := size;
      ghost var k: nat := 0;
      while true
        invariant got == Halved(size, k) && got <= size
        invariant forall j: nat :: j < k ==> !Usual(mmap(Halved(size, j)), Halved(size, j))
        decreases got
      {
        var p := Mmap(got, mmap(got));
        if p.None? {
          HalvedMore(size, k);
          got := got / 2;
          k := k + 1;
        }
        if got < threshold {
          forall m: nat | Halved(size, m) >= threshold ensures m < k {
            if m >= k {
              HalvedLess(size, k, m);
            }
          }
          return 0, 0;
        }
        if p.Some? {
          return got, p.value;
        }
      }
    }

    /** addregion can make a region of a mapping: there is memory, the second mmap succeeds, and something
        is left between the guards. */
    ghost predicate Roomy(base: nat, size: nat, memory: bool, fixed: bool)
      requires chunk > 0
    {
      memory && fixed && Usable(base, size, guard, chunk) > 0
    }

    /** The region addregion makes of a mapping: the chunks at least guard away from both its edges. */
    method MakeRegion(base: nat, size: nat, memory: bool, fixed: bool) returns (r: Region?)
      requires 0 < chunk <= MAX_ALIGN && guard <= MAX_ALIGN && TWO64 % chunk == 0 && k > 0
      requires 0 < size && 0 < base && base + size <= LIMIT
      ensures r != null <==> Roomy(base, size, memory, fixed)
      ensures r != null ==>
                && fresh(r) && fresh(r.alloc.bitvec) && r.Ok(chunk, guard) && r.mapbase == base && r.mapsize == size
                && r.Holds(Rep(false, SlotsIn(Usable(base, size, guard, chunk), chunk, k)), k)
      ensures r != null ==>
                && base + guard <= r.base < base + guard + chunk
                && base + size - chunk < r.base + r.size + guard <= base + size
    {
      hide Wrap, Ceil, Trunc, Usable, SlotsIn, Region.Holds;
      var start, end := Wrap(base + guard), Wrap(base + size - guard);
      var alignbase := Ceil(start, chunk);
      var alignsize := Wrap(Trunc(end, chunk) - alignbase);
      AlignedRegion(base, size, guard, chunk);
      if !memory {
        return null;
      }
      var alloc := new ExtAlloc(alignbase, alignsize, chunk);
      var mapped := fixed && 0 < alignsize && alignbase + alignsize <= LIMIT;
      if !mapped {
        return null;
      }
      r := new Region(alignbase, alignsize, alloc, base, size);
      FreeRegion(r, Rep(false, SlotsIn(alignsize, chunk, k)), k, chunk);
    }

    /** addregion: the chunk-aligned part of a mapping, at least guard away from both its edges. */
    method AddRegion(base: nat, size: nat, memory: bool, fixed: bool) returns (ok: bool)
      requires Valid() && 0 < size && 0 < base && base + size <= LIMIT && Clear(base, size)
      modifies `regions, `rows
      ensures Valid()
      ensures ok <==> |old(regions)| < ADDR_REGION_MAX && Roomy(base, size, memory, fixed)
      ensures !ok ==> regions == old(regions) && rows == old(rows)
      ensures ok ==>
                && |regions| == |old(regions)| + 1 && regions[..|old(regions)|] == old(regions)
                && regions[|old(regions)|].mapbase == base && regions[|old(regions)|].mapsize == size
                && rows == old(rows) + [Rep(false, SlotsIn(Usable(base, size, guard, chunk), chunk, k))]
      ensures ok ==>
                var r := regions[|old(regions)|];
                && base + guard <= r.base < base + guard + chunk
                && base + size - chunk < r.base + r.size + guard <= base + size
      ensures ok ==> fresh(regions[|old(regions)|]) && fresh(regions[|old(regions)|].alloc.bitvec)
    {
      hide Usable, SlotsIn, Region.Holds;
      if |regions| >= ADDR_REGION_MAX {
        return false;
      }
      var r := MakeRegion(base, size, memory, fixed);
      if r == null {
        return false;
      }
      regions := regions + [r];
      rows := rows + [Rep(false, SlotsIn(Usable(base, size, guard, chunk), chunk, k))];
      ok := true;
    }

    /** The first turn of a reservation gets size bytes at once. */
    ghost predicate Grants(host: Host, size: nat)
      requires chunk > 0
      reads this
    {
      Usual(host.mmap(0, size), size) && Roomy(host.mmap(0, size).value, size, host.memory(0), host.fixed(0))
    }

    lemma AskedOnce(size: nat)
      requires size > 0
      ensures Halved(size, 0) == size && forall k: nat :: Halved(size, k) >= size ==> k == 0
    {
      forall k: nat | k > 0 ensures Halved(size, k) < size {
        HalvedLess(size, 1, k);
        HalvedMore(size, 0);
      }
    }

    /** boxmap_reserve: size bytes in one mapping, or for 0 as much as the kernel grants. */
    method BoxmapReserve(bytes: nat, host: Host) returns (ok: bool)
      requires Valid() && regions == []
      modifies `regions, `rows
      ensures Valid()
      ensures forall r :: r in regions ==> fresh(r) && fresh(r.alloc.bitvec)
      ensures Total(rows) == 0
      ensures ok && bytes > 0 ==>
                && |regions| == 1 && regions[0].mapsize == bytes
                && rows == [Rep(false, SlotsIn(Usable(regions[0].mapbase, bytes, guard, chunk), chunk, k))]
      ensures ok && bytes == 0 ==> 32 * GB <= Span(regions) <= 256 * TB
      ensures bytes > 0 ==> (ok <==> old(Grants(host, bytes)))
      ensures bytes == 0 && old(Grants(host, 255 * TB)) ==> ok
    {
      hide Usable, SlotsIn, Region.Holds, Region.Ok, Apart, Clear;
      var total, size, min, totalgot, want, need := bytes, bytes, bytes, 0, bytes, bytes;
      if bytes == 0 {
        total := 256 * TB;
        size := 255 * TB;
        min := 32 * GB;
        want := size;
        need := min;
      }
      ghost var aim := total;
      for i := 0 to ADDR_REGION_MAX
        invariant Valid() && 0 <= size <= total && totalgot + total == aim && Span(regions) == totalgot
        invariant forall r :: r in regions ==> fresh(r) && fresh(r.alloc.bitvec)
        invariant Total(rows) == 0
        invariant i == 0 ==> regions == [] && size == if bytes > 0 then bytes else 255 * TB
        invariant i == 0 ==> Grants(host, size) == old(Grants(host, size)) && totalgot == 0
        invariant i > 0 ==> bytes == 0 && !old(Grants(host, 255 * TB))
      {
        if size > 0 {
          AskedOnce(size);
        }
        var got, base := Reserve(size, min, n => host.mmap(i, n));
        if got == 0 {
          break;
        }
        totalgot := totalgot + got;
        total := total - got;
        size := total;
        ghost var was := regions;
        var added := AddRegion(base, got, host.memory(i), host.fixed(i));
        if !added {
          return false;
        }
        SpanAppend(was, regions[|was|]);
        CapacityAppend(rows[..|was|], rows[|was|]);
        CountFree(SlotsIn(Usable(base, got, guard, chunk), chunk, k));
        assert regions == was + [regions[|was|]];
        if totalgot >= want {
          break;
        }
      }
      ok := totalgot >= need;
    }

    /** The live slots of all regions cover no more than what was mapped. */
    lemma RowsFit()
      requires Valid()
      ensures Capacity(rows) * (k * chunk) <= Span(regions)
    {
      RowsFitFrom(regions, rows, k, chunk, guard);
    }

    /** One region's turn in allocslot. */
    method TryRegion(i: nat, size: nat) returns (p: nat, ghost q: nat)
      requires Valid() && i < |regions| && size == k * chunk
      modifies regions[i], regions[i].alloc.bitvec, `rows
      ensures Valid()
      ensures p == 0 <==> FirstFree(old(rows[i])) == |old(rows[i])|
      ensures p == 0 ==> rows == old(rows)
      ensures p != 0 ==> q == FirstFree(old(rows[i])) && p == regions[i].SlotAddr(q, k)
      ensures p != 0 ==> rows == old(rows)[i := old(rows[i])[q := true]]
    {
      hide FirstFree, Uniform, Count;
      q := FirstFree(rows[i]);
      p := regions[i].Take(size, rows[i], k);
      if p != 0 {
        rows := rows[i := rows[i][q := true]];
      }
    }

    /** allocslot, as boxmap_addspace calls it: fails only when every slot of every region is taken, and
        otherwise takes the first free slot of the first region that has one. */
    method AddSpace(size: nat) returns (p: nat, ghost at: nat, ghost q: nat)
      requires Valid() && size == k * chunk
      modifies Footprint()
      ensures Valid() && regions == old(regions)
      ensures p == 0 <==> AllFull(old(rows))
      ensures p == 0 ==> rows == old(rows)
      ensures p != 0 ==>
                && at < |regions| && (forall j :: 0 <= j < at ==> FirstFree(old(rows[j])) == |old(rows[j])|)
                && q == FirstFree(old(rows[at])) < |old(rows[at])| && p == regions[at].SlotAddr(q, k)
                && rows == old(rows)[at := old(rows[at])[q := true]]
    {
      at, q := 0, 0;
      for i := 0 to |regions|
        invariant Valid() && regions == old(regions) && rows == old(rows)
        invariant forall j :: 0 <= j < i ==> FirstFree(old(rows[j])) == |old(rows[j])|
      {
        p, q := TryRegion(i, size);
        if p != 0 {
          at := i;
          return;
        }
      }
      p := 0;
    }

    /** deleteslot, as boxmap_rmspace calls it, for a live slot. */
    method RemoveSpace(base: nat, size: nat, ghost at: nat, ghost q: nat)
      requires Valid() && size == k * chunk && at < |regions| && q < |rows[at]| && rows[at][q]
      requires base == regions[at].SlotAddr(q, k)
      modifies Footprint()
      ensures Valid() && regions == old(regions)
      ensures rows == old(rows)[at := old(rows[at])[q := false]]
    {
      ghost var was := rows;
      ghost var freed := was[at := was[at][q := false]];
      SlotInside(regions[at], rows[at], q, k, chunk, guard);
      ProductPositive(k, chunk);
      hide Region.Ok, Region.Holds, Region.SlotAddr, Apart;
      for i := 0 to |regions|
        invariant Valid() && regions == old(regions)
        invariant rows == if i <= at then was else freed
      {
        InOneRegion(i, at, base);
        var vabase := regions[i].base;
        if base >= vabase && base < vabase + regions[i].size {
          FreeIn(i, base, size, q);
        }
      }
    }

    lemma InOneRegion(i: nat, at: nat, p: nat)
      requires Valid() && i < |regions| && at < |regions|
      requires regions[at].base <= p < regions[at].base + regions[at].size
      ensures regions[i].base <= p < regions[i].base + regions[i].size <==> i == at
    {
    }

    /** The region that holds the slot gives it back. */
    method FreeIn(i: nat, base: nat, size: nat, ghost q: nat)
      requires Valid() && size == k * chunk && i < |regions| && q < |rows[i]| && rows[i][q]
      requires base == regions[i].SlotAddr(q, k)
      modifies regions[i], regions[i].alloc.bitvec, `rows
      ensures Valid()
      ensures rows == old(rows)[i := old(rows[i])[q := false]]
    {
      hide Uniform, Count;
      regions[i].Give(base, size, rows[i], k, q);
      rows := rows[i := rows[i][q := false]];
    }
  }

  ghost function Span(regions: seq<Region>): nat
    decreases |regions|
  {
    if regions == [] then 0 else regions[0].mapsize + Span(regions[1..])
  }

  lemma {:induction false} SpanAppend(regions: seq<Region>, r: Region)
    ensures Span(regions + [r]) == Span(regions) + r.mapsize
    decreases |regions|
  {
    if regions == [] {
      assert [r][1..] == [];
    } else {
      assert (regions + [r])[1..] == regions[1..] + [r];
      SpanAppend(regions[1..], r);
    }
  }

  /** The chunk-aligned bytes of a mapping that lie guard away from both edges; negative when none do. */
  ghost function Usable(base: nat, size: nat, guard: nat, chunk: nat): int
    requires chunk > 0
  {
    Floor(base + size - guard, chunk) - Roof(base + guard, chunk)
  }

  ghost function Floor(x: int, c: nat): int
    requires c > 0
  {
    x - x % c
  }

  ghost function Roof(x: int, c: nat): int
    requires c > 0
  {
    if x % c == 0 then x else x + c - x % c
  }

  lemma FloorIsMultiple(x: int, c: nat)
    requires c > 0
    ensures Floor(x, c) % c == 0 && Roof(x, c) % c == 0
    ensures x - c < Floor(x, c) <= x <= Roof(x, c) < x + c
  {
    var q := x / c;
    assert x == q * c + x % c;
    MultipleMod(q, c);
    MultipleMod(q + 1, c);
    assert (q + 1) * c == q * c + c;
  }

  lemma MultipleMod(q: int, c: nat)
    requires c > 0
    ensures q * c % c == 0
  {
    DivUnique(q * c, c, q, 0);
  }

  lemma SumOfMultiples(x: int, y: int, c: nat)
    requires c > 0 && x % c == 0 && y % c == 0
    ensures (x + y) % c == 0 && (x - y) % c == 0
  {
    var p, q := x / c, y / c;
    assert x == p * c && y == q * c;
    assert x + y == (p + q) * c && x - y == (p - q) * c;
    MultipleMod(p + q, c);
    MultipleMod(p - q, c);
  }

  /** How many slots of k chunks fit into so many bytes. */
  ghost function SlotsIn(bytes: int, chunk: nat, k: nat): nat
    requires chunk > 0 && k > 0
  {
    if bytes <= 0 then 0 else
      DivNonNeg(bytes, chunk);
      DivNonNeg(bytes / chunk, k);
      bytes / chunk / k
  }

  lemma DivNonNeg(x: nat, c: nat)
    requires c > 0
    ensures x / c >= 0
  {
  }

  lemma CeilIsRoof(x: nat, c: nat)
    requires 0 < c && x + c < TWO64
    ensures Ceil(x, c) == Roof(x, c)
  {
  }

  lemma WrapSmall(x: nat)
    requires x < TWO64
    ensures Wrap(x) == x
  {
  }

  lemma WrapBelow(x: int)
    ensures Wrap(x) < TWO64
  {
  }

  lemma WrapMultiple(x: int, c: nat)
    requires c > 0 && x % c == 0 && TWO64 % c == 0
    ensures Wrap(x) % c == 0
  {
    var q, m, y := x / TWO64, TWO64 / c, x / c;
    assert x == y * c && TWO64 == m * c;
    assert Wrap(x) == x - q * TWO64;
    assert q * TWO64 == q * m * c;
    assert Wrap(x) == (y - q * m) * c;
    MultipleMod(y - q * m, c);
  }

  lemma TruncIsFloor(x: nat, c: nat)
    requires c > 0
    ensures Trunc(x, c) == Floor(x, c)
  {
  }

  /** What addregion computes in 64-bit words; the size comes out beyond every user address unless the
      mapping has room between its guards. */
  lemma AlignedRegion(base: nat, size: nat, guard: nat, chunk: nat)
    requires 0 < chunk <= MAX_ALIGN && guard <= MAX_ALIGN && TWO64 % chunk == 0
    requires 0 < base && 0 < size && base + size <= LIMIT
    ensures var a := Ceil(Wrap(base + guard), chunk);
            var n := Wrap(Trunc(Wrap(base + size - guard), chunk) - a);
            && a % chunk == 0 && n % chunk == 0 && a == Roof(base + guard, chunk) && chunk <= a
            && (a + n <= LIMIT && n > 0 <==> Usable(base, size, guard, chunk) > 0)
            && (Usable(base, size, guard, chunk) > 0 ==>
                  && n == Usable(base, size, guard, chunk) && base + guard <= a < base + guard + chunk
                  && base + size - chunk < a + n + guard <= base + size)
  {
    hide Wrap, Floor, Roof, Ceil, Trunc;
    WrapSmall(base + guard);
    var end := Wrap(base + size - guard);
    WrapBelow(base + size - guard);
    FloorIsMultiple(base + guard, chunk);
    FloorIsMultiple(base + size - guard, chunk);
    CeilIsRoof(base + guard, chunk);
    var a := Roof(base + guard, chunk);
    FloorIsMultiple(end, chunk);
    TruncIsFloor(end, chunk);
    var t := Trunc(end, chunk);
    SumOfMultiples(t, a, chunk);
    WrapMultiple(t - a, chunk);
    MultipleAtLeast(a, chunk);
    if a + Wrap(t - a) <= LIMIT {
      NoUnderflow(base, size, guard, t, a, end);
    }
    if Usable(base, size, guard, chunk) > 0 {
      WrapSmall(base + size - guard);
      WrapSmall(t - a);
    }
  }

  lemma MultipleAtLeast(a: nat, c: nat)
    requires c > 0 && a > 0 && a % c == 0
    ensures a >= c
  {
  }

  lemma NoUnderflow(base: nat, size: nat, guard: nat, t: nat, a: nat, end: nat)
    requires base + size <= LIMIT && guard <= MAX_ALIGN
    requires end == Wrap(base + size - guard) && end - MAX_ALIGN < t <= end && a < TWO64
    requires a + Wrap(t - a) <= LIMIT
    ensures t >= a && end == base + size - guard && Wrap(t - a) == t - a
  {
  }

  /** A fresh region: all its slots are free. */
  lemma FreeRegion(r: Region, row: seq<bool>, k: nat, chunk: nat)
    requires chunk > 0 && k > 0 && r.alloc.Valid() && r.active == 0
    requires r.base % chunk == 0 && r.size % chunk == 0 && r.alloc.chunksize == chunk
    requires r.alloc.base == r.base / chunk && r.alloc.size == r.size / chunk
    requires forall i :: 0 <= i < r.alloc.size ==> !r.alloc.Bits()[i]
    requires row == Rep(false, SlotsIn(r.size, chunk, k))
    ensures r.Holds(row, k) && r.base == r.alloc.base * chunk && r.size == r.alloc.size * chunk
  {
    FreeFits(r.alloc.size, k);
    UniformFree(r.alloc.Bits(), r.alloc.size / k, k);
    CountFree(r.alloc.size / k);
  }

  lemma RowFits(n: nat, k: nat, size: nat, chunk: nat, mapped: nat, more: nat, rest: nat)
    requires n * k <= size && size * chunk <= mapped && more * (k * chunk) <= rest
    ensures (n + more) * (k * chunk) <= mapped + rest
  {
    ProductOrder(n * k, size, chunk);
    assert n * k * chunk == n * (k * chunk);
    assert (n + more) * (k * chunk) == n * (k * chunk) + more * (k * chunk);
  }

  lemma {:induction false} RowsFitFrom(regions: seq<Region>, rows: seq<seq<bool>>, k: nat, chunk: nat, guard: nat)
    requires |rows| == |regions| && chunk > 0
    requires forall i :: 0 <= i < |regions| ==> regions[i].Ok(chunk, guard) && regions[i].Holds(rows[i], k)
    ensures Capacity(rows) * (k * chunk) <= Span(regions)
    decreases |regions|
  {
    if regions != [] {
      assert forall i :: 0 <= i < |regions[1..]| ==> regions[1..][i] == regions[i + 1] && rows[1..][i] == rows[i + 1];
      RowsFitFrom(regions[1..], rows[1..], k, chunk, guard);
      ExpandLength(rows[0], k);
      RowFits(|rows[0]|, k, regions[0].alloc.size, chunk, regions[0].mapsize, Capacity(rows[1..]), Span(regions[1..]));
    }
  }

  lemma FirstIsFree(bits: seq<bool>, at: nat, k: nat)
    requires FirstRun(bits, at, k)
    ensures FreeRun(bits, at, k)
  {
  }

  lemma NoFirstRun(bits: seq<bool>, row: seq<bool>, k: nat, idx: nat)
    requires Uniform(bits, row, k) && FirstRun(bits, idx, k)
    ensures FirstFree(row) < |row| && FirstRun(bits, FirstFree(row) * k, k)
  {
    FirstFitIsFirstFree(bits, row, k);
    assert FreeRun(bits, idx, k);
  }

  lemma {:induction false} CountPositive(live: seq<bool>, q: nat)
    requires q < |live| && live[q]
    ensures Count(live) > 0
    decreases |live|
  {
    if q > 0 {
      CountPositive(live[1..], q - 1);
    }
  }

  lemma RangeInside(a: nat, at: nat, k: nat, n: nat, c: nat)
    requires at + k <= n
    ensures a * c <= (a + at) * c && (a + at) * c + k * c <= a * c + n * c
  {
    ProductOrder(at + k, n, c);
    ProductOrder(0, at, c);
    assert (a + at) * c == a * c + at * c;
    assert (at + k) * c == at * c + k * c;
  }

  /** A slot lies inside its region, and at least the guard inside the mapping. */
  lemma SlotInside(r: Region, row: seq<bool>, q: nat, k: nat, chunk: nat, guard: nat)
    requires r.Ok(chunk, guard) && r.Holds(row, k) && q < |row| && chunk > 0
    ensures r.base <= r.SlotAddr(q, k) && r.SlotAddr(q, k) + k * chunk <= r.base + r.size
    ensures r.mapbase + guard <= r.SlotAddr(q, k) && r.SlotAddr(q, k) + k * chunk + guard <= r.mapbase + r.mapsize
  {
    hide Uniform, Count;
    FillSlot(r.alloc.Bits(), row, k, q, false);
    MulNonNeg(q, k);
    RangeInside(r.alloc.base, q * k, k, r.alloc.size, chunk);
  }
}
