/** linux/sys/sys_brk.c: the program break over the box's page map. */
module Brks {
  import opened Wrappers
  import opened RangeMaps
  import opened AddrSpaces
  import opened Boxes

  const HEAP_PROT: bv32 := PROT_READ | PROT_WRITE
  const MAP_PRIVATE: bv32 := 2
  const MAP_ANONYMOUS: bv32 := 32
  const HEAP := MapInfo(HEAP_PROT, MAP_PRIVATE | MAP_ANONYMOUS, -1, 0)

  /** One call: the requested break and how the host answers a mapping. */
  datatype BrkCall = BrkCall(addr: nat, h: Host)

  class Heap {
    const box: Box
    const brkbase: nat
    const brkmax: nat
    var brksize: nat

    /** First page at or above address a. */
    function CeilPage(a: nat): nat
      requires box.pagesize > 0
    {
      AddrSpace.PageCeil(a, box.pagesize)
    }

    function Break(): nat
      reads this
    {
      brkbase + brksize
    }

    /** The break stays in the reserved region and every heap page below it is mapped read-write. */
    ghost predicate Valid()
      reads this, box, box.mm, box.mm.regions
    {
      && box.Valid()
      && brkbase % box.pagesize == 0
      && box.BufValid(brkbase, brkmax)
      && brksize <= brkmax
      && (forall p: nat :: brkbase / box.pagesize <= p < CeilPage(Break()) ==> At(box.Map(), p) == Some(HEAP))
    }

    /** After loading: the region is reserved and the break is at its start. */
    constructor (box: Box, brkbase: nat, brkmax: nat)
      requires box.Valid() && brkbase % box.pagesize == 0 && box.BufValid(brkbase, brkmax)
      ensures Valid() && brksize == 0 && this.box == box && this.brkbase == brkbase && this.brkmax == brkmax
    {
      this.box, this.brkbase, this.brkmax := box, brkbase, brkmax;
      brksize := 0;
    }

    /** The break a request asks for when the break is brk, clamped to the region. */
    ghost function Target(brk: nat, addr: nat): nat {
      if addr == 0 then brk
      else if addr < brkbase then brkbase
      else if addr >= brkbase + brkmax then brkbase + brkmax
      else addr
    }

    ghost predicate Allowed(addr: nat) { addr == 0 || box.PtrValid(addr) }

    /** The whole pages [i, j) lie inside the box. */
    ghost predicate PagesValid(i: nat, j: nat) {
      i <= j && box.BufValid(i * box.pagesize, (j - i) * box.pagesize)
    }

    /** The pages a request maps when the break is brk: those between the old break and the new one, both
        rounded up; never a page below the old break. */
    ghost function Mapped(brk: nat, addr: nat): (log: seq<(nat, nat)>)
      requires box.pagesize > 0
    {
      var i, j := CeilPage(brk), CeilPage(Target(brk, addr));
      if Allowed(addr) && i < j && PagesValid(i, j) then [(i, j)] else []
    }

    /** Maps heap pages [i, j); only those pages change. */
    method MapPages(i: nat, j: nat, h: Host) returns (ok: bool)
      requires box.Valid() && i < j
      modifies box.mm.regions, box`replaced
      ensures box.Valid()
      ensures ok <==> PagesValid(i, j) && h.mapOk
      ensures !PagesValid(i, j) ==> box.Map() == old(box.Map())
      ensures box.replaced == old(box.replaced) + if PagesValid(i, j) then [(i, j)] else []
      ensures forall p: nat :: At(box.Map(), p) == if ok && i <= p < j then Some(HEAP)
                                                   else if PagesValid(i, j) && i <= p < j then None
                                                   else At(old(box.Map()), p)
    {
      PagesBetween(i, j, box.pagesize);
      MulOrder(i, j, box.pagesize);
      var m := box.MapAt(i * box.pagesize, j * box.pagesize - i * box.pagesize, HEAP, h);
      ok := m.Some?;
    }

    /** The part of sys_brk that maps the pages between the old break and a higher one. */
    method Grow(newsize: nat, h: Host) returns (ok: bool)
      requires Valid() && brksize < newsize <= brkmax
      modifies box.mm.regions, box`replaced
      ensures Valid()
      ensures var i, j := CeilPage(Break()), CeilPage(brkbase + newsize);
              && (ok <==> (i < j ==> PagesValid(i, j) && h.mapOk))
              && box.replaced == old(box.replaced) + (if i < j && PagesValid(i, j) then [(i, j)] else [])
              && ((i < j && PagesValid(i, j)) || box.Map() == old(box.Map()))
              && (forall p: nat :: !(i <= p < j) ==> At(box.Map(), p) == At(old(box.Map()), p))
      ensures ok ==> forall p: nat :: brkbase / box.pagesize <= p < CeilPage(brkbase + newsize) ==>
                                        At(box.Map(), p) == Some(HEAP)
    {
      hide At, PagesValid, AddrSpace.PageCeil;
      var next := CeilPage(brkbase + brksize);
      var newEnd := CeilPage(brkbase + newsize);
      ok := true;
      if newEnd > next {
        ok := MapPages(next, newEnd, h);
      }
    }

    /** sys_brk; None stands for the return value -1. */
    method SysBrk(addr: nat, h: Host) returns (r: Option<nat>)
      requires Valid()
      modifies this`brksize, box.mm.regions, box`replaced
      ensures Valid()
      ensures r.Some? <==>
                var i, j := old(CeilPage(Break())), CeilPage(Target(old(Break()), addr));
                Allowed(addr) && (i < j ==> PagesValid(i, j) && h.mapOk)
      ensures Allowed(addr) && h.mapOk && CeilPage(Target(old(Break()), addr)) * box.pagesize <= box.max ==> r.Some?
      ensures r.Some? ==> r.value == Target(old(Break()), addr) == Break()
      ensures r.Some? ==> if addr == 0 then r.value == old(Break())
                          else if brkbase <= addr <= brkbase + brkmax then r.value == addr
                          else if addr < brkbase then r.value == brkbase
                          else r.value == brkbase + brkmax
      ensures r.None? ==> brksize == old(brksize)
      ensures box.replaced == old(box.replaced) + Mapped(old(Break()), addr)
      ensures Mapped(old(Break()), addr) == [] ==> box.Map() == old(box.Map())
      ensures forall p: nat :: !(old(CeilPage(Break())) <= p < CeilPage(Target(old(Break()), addr))) ==>
                                 At(box.Map(), p) == At(old(box.Map()), p)
    {
      var brkp := brkbase + brksize;
      if addr != 0 {
        if !box.PtrValid(addr) {
          return None;
        }
        brkp := addr;
      }
      if brkp < brkbase {
        brkp := brkbase;
      }
      if brkp >= brkbase + brkmax {
        brkp := brkbase + brkmax;
      }
      assert Allowed(addr) && brkp == Target(Break(), addr);
      var newsize := brkp - brkbase;
      if newsize == brksize {
        return Some(brkp);
      }
      CeilOrder(if brkp < Break() then brkp else Break(), if brkp < Break() then Break() else brkp, box.pagesize);
      CeilOrder(brkbase, Break(), box.pagesize);
      if brkp > Break() && CeilPage(brkp) * box.pagesize <= box.max {
        HeapInBox(CeilPage(Break()), CeilPage(brkp));
      }
      hide At, PagesValid;
      if brkp > brkbase + brksize {
        var ok := Grow(newsize, h);
        if !ok {
          return None;
        }
      }
      brksize := newsize;
      return Some(brkbase + brksize);
    }

    /** Heap pages lie inside the box as soon as their end does. */
    lemma HeapInBox(i: nat, j: nat)
      requires box.pagesize > 0 && box.min <= brkbase && brkbase % box.pagesize == 0
      requires brkbase / box.pagesize <= i <= j && j * box.pagesize <= box.max
      ensures PagesValid(i, j)
    {
      AddrOfPage(brkbase, box.pagesize);
      MulOrder(brkbase / box.pagesize, i, box.pagesize);
      MulOrder(i, j, box.pagesize);
    }

    /** The break after calls that answered rs. */
    ghost function BreakAfter(brk: nat, rs: seq<Option<nat>>): nat {
      if rs == [] then brk
      else match rs[|rs| - 1] case Some(b) => b case None => BreakAfter(brk, rs[..|rs| - 1])
    }

    /** The page ranges they mapped, in order. */
    ghost function AllMapped(brk: nat, calls: seq<BrkCall>, rs: seq<Option<nat>>): seq<(nat, nat)>
      requires box.pagesize > 0 && |rs| == |calls|
    {
      if rs == [] then []
      else
        var n := |rs| - 1;
        AllMapped(brk, calls[..n], rs[..n]) + Mapped(BreakAfter(brk, rs[..n]), calls[n].addr)
    }

    /** A page that stays below the break throughout is in none of the ranges: it keeps its contents. */
    lemma {:induction false} LivePageKept(brk: nat, calls: seq<BrkCall>, rs: seq<Option<nat>>, p: nat)
      requires box.pagesize > 0 && |rs| == |calls|
      requires forall i :: 0 <= i <= |rs| ==> p < CeilPage(BreakAfter(brk, rs[..i]))
      ensures forall k :: 0 <= k < |AllMapped(brk, calls, rs)| ==>
                            var (i, j) := AllMapped(brk, calls, rs)[k]; p < i < j
    {
      if rs != [] {
        var n := |rs| - 1;
        forall i | 0 <= i <= n ensures p < CeilPage(BreakAfter(brk, rs[..n][..i])) {
          assert rs[..n][..i] == rs[..i];
        }
        LivePageKept(brk, calls[..n], rs[..n], p);
        assert rs[..n][..n] == rs[..n];
      }
    }

    /** One call, as far as a run is concerned. */
    method InRegion(addr: nat, h: Host) returns (r: Option<nat>)
      requires Valid()
      modifies this`brksize, box.mm.regions, box`replaced
      ensures Valid() && Break() == (if r.Some? then r.value else old(Break()))
      ensures box.replaced == old(box.replaced) + Mapped(old(Break()), addr)
      ensures forall p: nat :: !(brkbase / box.pagesize <= p < CeilPage(brkbase + brkmax)) ==>
                                 At(box.Map(), p) == At(old(box.Map()), p)
    {
      hide At, Mapped, PagesValid;
      CeilOrder(brkbase, Break(), box.pagesize);
      CeilOrder(Target(Break(), addr), brkbase + brkmax, box.pagesize);
      r := SysBrk(addr, h);
    }

    /** Over any run of brk calls the invariant holds, pages outside the region keep their info, and the
        calls replace exactly the ranges between each old break and the new one: never a live heap page. */
    method Run(calls: seq<BrkCall>) returns (rs: seq<Option<nat>>)
      requires Valid()
      modifies this`brksize, box.mm.regions, box`replaced
      ensures Valid() && brkbase <= Break() <= brkbase + brkmax
      ensures |rs| == |calls| && Break() == BreakAfter(old(Break()), rs)
      ensures box.replaced == old(box.replaced) + AllMapped(old(Break()), calls, rs)
      ensures forall p: nat :: !(brkbase / box.pagesize <= p < CeilPage(brkbase + brkmax)) ==>
                                 At(box.Map(), p) == At(old(box.Map()), p)
    {
      rs := [];
      hide At, RangeMap.Valid;
      for i := 0 to |calls|
        invariant Valid() && |rs| == i && Break() == BreakAfter(old(Break()), rs)
        invariant box.replaced == old(box.replaced) + AllMapped(old(Break()), calls[..i], rs)
        invariant forall p: nat :: !(brkbase / box.pagesize <= p < CeilPage(brkbase + brkmax)) ==>
                                     At(box.Map(), p) == At(old(box.Map()), p)
      {
        hide Box.Valid, Mapped, Target, AddrSpace.PageCeil;
        var r := InRegion(calls[i].addr, calls[i].h);
        assert calls[..i + 1][..i] == calls[..i] && (rs + [r])[..i] == rs;
        rs := rs + [r];
      }
      assert calls[..|calls|] == calls;
    }
  }
}
