/** core/box.c: the sandbox's page map with verification and host calls on top.

    A host call (mmap, mprotect) and the instruction verifier may each succeed or fail; every operation
    takes those outcomes as an argument, so a contract holds for all of them. */
module Boxes {
  import opened Wrappers
  import opened Division
  import opened RangeMaps
  import opened AddrSpaces

  /** What the kernel and the verifier answer during one operation. */
  datatype Host = Host(mapOk: bool, protectOk: bool, verifyOk: bool, unmapOk: bool)

  datatype Errno = EOk | EInval | ENoMem | EPerm

  const PROT_READ: bv32 := 1
  const PROT_WRITE: bv32 := 2
  const PROT_EXEC: bv32 := 4

  predicate Writable(prot: bv32) { prot & PROT_WRITE != 0 }

  predicate Executable(prot: bv32) { prot & PROT_EXEC != 0 }

  /** The second bit is write, the third execute. */
  lemma ProtBits(prot: bv32)
    ensures Writable(prot) <==> (prot >> 1) & 1 == 1
    ensures Executable(prot) <==> (prot >> 2) & 1 == 1
  {
  }

  predicate WX(prot: bv32) { Writable(prot) && Executable(prot) }

  /** No page is mapped both writable and executable. */
  ghost predicate NoWX(es: Pages) {
    forall p: nat :: At(es, p).Some? ==> !WX(At(es, p).value.prot)
  }

  // ----- rounding -----

  lemma CeilBounds(x: nat, ps: nat)
    requires ps > 0
    ensures x <= AddrSpace.PageCeil(x, ps) * ps < x + ps
  {
    var q := x / ps;
    assert x == q * ps + x % ps;
    assert (q + 1) * ps == q * ps + ps;
  }

  lemma MulOrder(i: nat, j: nat, ps: nat)
    requires ps > 0 && i <= j
    ensures i * ps <= j * ps && (j - i) * ps == j * ps - i * ps
    ensures i < j ==> i * ps < j * ps
  {
    assert (j - i) * ps == j * ps - i * ps;
    assert j - i >= 1 ==> (j - i) * ps >= ps;
  }

  /** The byte range between two page boundaries is the pages between them. */
  lemma PagesBetween(i: nat, j: nat, ps: nat)
    requires ps > 0 && i <= j
    ensures i * ps <= j * ps && (i < j <==> i * ps < j * ps)
    ensures i * ps % ps == 0 && i * ps / ps == i
    ensures i + AddrSpace.PageCeil(j * ps - i * ps, ps) == j
  {
    MulOrder(i, j, ps);
    DivideProduct(i, ps);
    DivideProduct(j - i, ps);
  }

  lemma CeilOrder(x: nat, y: nat, ps: nat)
    requires ps > 0 && x <= y
    ensures x / ps <= AddrSpace.PageCeil(x, ps) <= AddrSpace.PageCeil(y, ps)
  {
    CeilBounds(x, ps);
    CeilBounds(y, ps);
    CancelLess(AddrSpace.PageCeil(x, ps) - 1, AddrSpace.PageCeil(y, ps), ps);
  }

  /** Rounding up a piece that lies k pages into a region stays inside the rounded-up region. */
  lemma CeilFits(size: nat, k: nat, total: nat, ps: nat)
    requires ps > 0 && k * ps + size <= total
    ensures k + AddrSpace.PageCeil(size, ps) <= AddrSpace.PageCeil(total, ps)
  {
    CeilBounds(size, ps);
    CeilBounds(total, ps);
    var n, t := AddrSpace.PageCeil(size, ps), AddrSpace.PageCeil(total, ps);
    assert (k + n - 1) * ps == k * ps + n * ps - ps;
    CancelLess(k + n - 1, t, ps);
  }

  class Box {
    const min: nat
    const max: nat
    const pagesize: nat
    const noVerify: bool
    const allowWx: bool
    const mm: AddrSpace
    /** The page ranges whose contents the operations at a given address have replaced so far. */
    ghost var replaced: seq<(nat, nat)>

    ghost predicate Valid()
      reads this, mm, mm.regions
    {
      && mm.Valid()
      && min <= max && mm.pagesize == pagesize && min % pagesize == 0
      && mm.base == min / pagesize && mm.len == AddrSpace.PageCeil(max - min, pagesize)
      && (!allowWx ==> NoWX(mm.regions.entries))
    }

    /** The page map as a sequence of entries. */
    ghost function Map(): Pages
      reads mm.regions
    {
      mm.regions.entries
    }

    constructor (min: nat, max: nat, pagesize: nat, noVerify: bool, allowWx: bool, aslr: bool)
      requires pagesize > 0 && min % pagesize == 0 && min <= max
      requires (min / pagesize + AddrSpace.PageCeil(max - min, pagesize)) * pagesize <= 0x1_0000_0000_0000_0000
      ensures Valid() && fresh(mm) && fresh(mm.regions) && Map() == [] && replaced == []
    {
      this.min, this.max, this.pagesize := min, max, pagesize;
      this.noVerify, this.allowWx := noVerify, allowWx;
      mm := new AddrSpace.Init(min, max - min, pagesize);
      replaced := [];
      new;
      if aslr {
        mm.EnableAslr();
      }
    }

    predicate PtrValid(addr: nat): (b: bool)
      ensures b <==> BufValid(addr, 1)
    {
      min <= addr < max
    }

    /** The bytes of the buffer lie in the box; the code's test cannot overflow. */
    predicate BufValid(addr: nat, size: nat): (b: bool)
      ensures b <==> min <= addr && addr + size <= max
    {
      min <= addr <= max && size <= max - addr
    }

    /** The test shared by verify, protectverify and mapverify: allowed without looking at the code. */
    predicate Unverified(prot: bv32, noVerify: bool) {
      var skip := noVerify || this.noVerify;
      !Executable(prot) || (skip && !WX(prot)) || (allowWx && skip)
    }

    /** What a protection needs: nothing unless it is executable; when verification is skipped, allow_wx if
        it is also writable; otherwise that it is not writable and the code was accepted. */
    ghost predicate MayHave(prot: bv32, noVerify: bool, accepted: bool) {
      Executable(prot) ==> if noVerify || this.noVerify then WX(prot) ==> allowWx else !WX(prot) && accepted
    }

    predicate Verify(prot: bv32, h: Host) {
      Unverified(prot, false) || (!WX(prot) && h.verifyOk)
    }

    predicate ProtectVerify(prot: bv32, noVerify: bool, h: Host) {
      if Unverified(prot, noVerify) then h.protectOk
      else !WX(prot) && h.verifyOk && h.protectOk
    }

    predicate MapVerify(prot: bv32, noVerify: bool, h: Host) {
      if Unverified(prot, noVerify) then h.mapOk
      else !WX(prot) && h.mapOk && h.verifyOk && h.protectOk
    }

    /** Pages [addr, addr + size) rounded outward to whole pages. */
    ghost predicate InRange(addr: nat, size: nat, p: nat)
      requires pagesize > 0
    {
      addr / pagesize <= p < addr / pagesize + AddrSpace.PageCeil(size, pagesize)
    }

    ghost function PageRange(addr: nat, size: nat): (nat, nat)
      requires pagesize > 0
    {
      (addr / pagesize, addr / pagesize + AddrSpace.PageCeil(size, pagesize))
    }

    /** An aligned buffer inside the box is always a range the page map accepts. */
    lemma ValidRange(addr: nat, size: nat)
      requires Valid() && BufValid(addr, size) && size > 0 && addr % pagesize == 0
      ensures !mm.BadRange(addr, size)
    {
      AddrOfPage(addr, pagesize);
      AddrOfPage(min, pagesize);
      var k := addr / pagesize - min / pagesize;
      assert k * pagesize == addr - min;
      CancelLess(-1, k, pagesize);
      CeilFits(size, k, max - min, pagesize);
    }

    /** box_mapany_locked: on any failure the entries are exactly what they were. */
    method MapAny(size: nat, info: MapInfo, noVerify: bool, h: Host, rnd: nat) returns (r: Option<nat>)
      requires Valid()
      modifies mm.regions
      ensures Valid()
      ensures r.None? <==> size == 0 || old(mm.Candidates(mm.ToPageCeil(size))) == []
                           || !MapVerify(info.prot, noVerify, h)
      ensures size > 0 && old(mm.Candidates(mm.ToPageCeil(size))) != [] ==>
                (r.Some? <==> h.mapOk && MayHave(info.prot, noVerify, h.verifyOk && h.protectOk))
      ensures r.None? ==> Map() == old(Map())
      ensures r.Some? ==> r.value % pagesize == 0
      ensures r.Some? ==> mm.ToPage(r.value) in old(mm.Candidates(mm.ToPageCeil(size)))
      ensures r.Some? ==> forall p: nat :: At(Map(), p) ==
                            if InRange(r.value, size, p) then Some(info) else At(old(Map()), p)
    {
      var addr := mm.MapAny(0, size, info, rnd);
      if addr.None? {
        return None;
      }
      if !MapVerify(info.prot, noVerify, h) {
        var _, _, _ := mm.Unmap(addr.value, size, true);
        CanonicalUnique(Map(), old(Map()));
        return None;
      }
      return addr;
    }

    /** box_mapat_locked: a refused mapping leaves a hole, not the old pages. */
    method MapAt(addr: nat, size: nat, info: MapInfo, h: Host) returns (r: Option<nat>)
      requires Valid()
      modifies mm.regions, `replaced
      ensures Valid()
      ensures replaced == old(replaced) + if BufValid(addr, size) && size > 0 && addr % pagesize == 0
                                         then [PageRange(addr, size)] else []
      ensures r == if BufValid(addr, size) && size > 0 && addr % pagesize == 0 && MapVerify(info.prot, false, h)
                   then Some(addr) else None
      ensures BufValid(addr, size) && size > 0 && addr % pagesize == 0 ==>
                (r.Some? <==> h.mapOk && MayHave(info.prot, false, h.verifyOk && h.protectOk))
      ensures if BufValid(addr, size) && size > 0 && addr % pagesize == 0
              then forall p: nat :: At(Map(), p) == if InRange(addr, size, p)
                                                    then (if r.Some? then Some(info) else None)
                                                    else At(old(Map()), p)
              else Map() == old(Map())
    {
      if !BufValid(addr, size) {
        return None;
      }
      if size > 0 && addr % pagesize == 0 {
        ValidRange(addr, size);
      }
      var m, _, _ := mm.MapAt(addr, size, info, true);
      if m.None? {
        return None;
      }
      replaced := replaced + [PageRange(addr, size)];
      if !MapVerify(info.prot, false, h) {
        var _, _, _ := mm.Unmap(addr, size, true);
        return None;
      }
      return m;
    }

    /** lfi_box_mapat_register: the pages exist already; they are only recorded and verified. */
    method Register(addr: nat, size: nat, info: MapInfo, h: Host) returns (r: Option<nat>)
      requires Valid()
      modifies mm.regions, `replaced
      ensures Valid()
      ensures replaced == old(replaced) + if BufValid(addr, size) && size > 0 && addr % pagesize == 0
                                         then [PageRange(addr, size)] else []
      ensures r == if BufValid(addr, size) && size > 0 && addr % pagesize == 0 && Verify(info.prot, h)
                   then Some(addr) else None
      ensures BufValid(addr, size) && size > 0 && addr % pagesize == 0 ==>
                (r.Some? <==> MayHave(info.prot, false, h.verifyOk))
      ensures if BufValid(addr, size) && size > 0 && addr % pagesize == 0
              then forall p: nat :: At(Map(), p) == if InRange(addr, size, p)
                                                    then (if r.Some? then Some(info) else None)
                                                    else At(old(Map()), p)
              else Map() == old(Map())
    {
      if !BufValid(addr, size) {
        return None;
      }
      if size > 0 && addr % pagesize == 0 {
        ValidRange(addr, size);
      }
      var m, _, _ := mm.MapAt(addr, size, info, true);
      if m.None? {
        return None;
      }
      replaced := replaced + [PageRange(addr, size)];
      if !Verify(info.prot, h) {
        var _, _, _ := mm.Unmap(addr, size, false);
        return None;
      }
      return m;
    }

    /** box_mprotect_locked: only the protection of the mapped pages of the range changes. */
    method Mprotect(addr: nat, size: nat, prot: bv32, noVerify: bool, h: Host) returns (e: Errno)
      requires Valid()
      modifies mm.regions
      ensures Valid()
      ensures e == if size == 0 || addr % pagesize != 0 || size % pagesize != 0 || !BufValid(addr, size)
                      || !ProtectVerify(prot, noVerify, h)
                   then EPerm else EOk
      ensures e == EOk ==> h.protectOk
      ensures size > 0 && addr % pagesize == 0 && size % pagesize == 0 && BufValid(addr, size) ==>
                && (!Executable(prot) ==> (e == EOk <==> h.protectOk))
                && (Executable(prot) && !noVerify && !this.noVerify ==>
                      (e == EOk <==> !WX(prot) && h.verifyOk && h.protectOk))
      ensures e == EOk <==>
                && size > 0 && addr % pagesize == 0 && size % pagesize == 0 && BufValid(addr, size)
                && h.protectOk && MayHave(prot, noVerify, h.verifyOk)
      ensures e != EOk ==> Map() == old(Map())
      ensures e == EOk ==> forall p: nat :: At(Map(), p) ==
                             if InRange(addr, size, p) then Reprot(At(old(Map()), p), prot) else At(old(Map()), p)
    {
      if size == 0 || addr % pagesize != 0 || size % pagesize != 0 {
        return EPerm;
      }
      if !BufValid(addr, size) {
        return EPerm;
      }
      if !ProtectVerify(prot, noVerify, h) {
        return EPerm;
      }
      ValidRange(addr, size);
      var me, _, _ := mm.Protect(addr, size, prot, false);
      e := if me == kOk then EOk else EInval;
    }

    /** box_munmap_locked: once the host has dropped the pages the map always follows. */
    method Munmap(addr: nat, size: nat, h: Host) returns (e: Errno)
      requires Valid()
      modifies mm.regions, `replaced
      ensures Valid()
      ensures e == if !BufValid(addr, size) || size == 0 || addr % pagesize != 0 then EInval
                   else if !h.unmapOk then ENoMem else EOk
      ensures e != EOk ==> Map() == old(Map())
      ensures replaced == old(replaced) + if e == EOk then [PageRange(addr, size)] else []
      ensures e == EOk ==> forall p: nat :: At(Map(), p) ==
                             if InRange(addr, size, p) then None else At(old(Map()), p)
    {
      if !BufValid(addr, size) || size == 0 || addr % pagesize != 0 {
        return EInval;
      }
      if !h.unmapOk {
        return ENoMem;
      }
      replaced := replaced + [PageRange(addr, size)];
      ValidRange(addr, size);
      var me, _, _ := mm.Unmap(addr, size, false);
      e := if me == kOk then EOk else EInval;
    }

    method Query(addr: nat) returns (r: Option<MapInfo>)
      requires Valid()
      ensures r == At(Map(), addr / pagesize)
    {
      r := mm.QueryPage(addr);
    }

    /** From was to the map now, by one operation with result r: only pages it touches changed, and those
        it left mapped passed its checks with the protection they have now. */
    ghost predicate Stepped(was: Pages, op: BoxOp, r: Option<nat>)
      reads this, mm.regions
    {
      && (forall p: nat :: !Touches(op, r, p) ==> At(Map(), p) == At(was, p))
      && (forall p: nat :: Touches(op, r, p) && At(Map(), p).Some? ==> Vetted(op, r, p, At(Map(), p).value.prot))
    }

    method StepAny(op: BoxOp) returns (r: Option<nat>)
      requires Valid() && op.OpMapAny?
      modifies mm.regions
      ensures Valid() && Stepped(old(Map()), op, r)
    {
      assert pagesize > 0;
      hide At, InRange, Valid, WX, Executable;
      r := MapAny(op.size, op.info, op.noVerify, op.h, op.rnd);
    }

    method StepAt(op: BoxOp) returns (r: Option<nat>)
      requires Valid() && (op.OpMapAt? || op.OpRegister?)
      modifies mm.regions, `replaced
      ensures Valid() && Stepped(old(Map()), op, r)
    {
      assert pagesize > 0;
      hide At, InRange, Valid, WX, Executable;
      match op
      case OpMapAt(addr, size, info, h) => r := MapAt(addr, size, info, h);
      case OpRegister(addr, size, info, h) => r := Register(addr, size, info, h);
    }

    method StepChange(op: BoxOp) returns (r: Option<nat>)
      requires Valid() && (op.OpMprotect? || op.OpMunmap?)
      modifies mm.regions, `replaced
      ensures Valid() && Stepped(old(Map()), op, r)
    {
      assert pagesize > 0;
      hide At, InRange, Valid, WX, Executable;
      var e;
      match op {
        case OpMprotect(addr, size, prot, skip, h) => e := Mprotect(addr, size, prot, skip, h);
        case OpMunmap(addr, size, h) => e := Munmap(addr, size, h);
      }
      r := if e == EOk then Some(op.addr) else None;
    }

    /** One operation; the result is the address it worked on, when it succeeded. */
    method Step(op: BoxOp) returns (r: Option<nat>)
      requires Valid()
      modifies mm.regions, `replaced
      ensures Valid() && Stepped(old(Map()), op, r)
    {
      hide Valid, Stepped;
      if op.OpMprotect? || op.OpMunmap? {
        r := StepChange(op);
      } else if op.OpMapAny? {
        r := StepAny(op);
      } else {
        r := StepAt(op);
      }
    }

    /** The operation, with result r, may have changed page p. */
    ghost predicate Touches(op: BoxOp, r: Option<nat>, p: nat) {
      && pagesize > 0
      && match op
         case OpMapAt(addr, size, _, _) => BufValid(addr, size) && addr % pagesize == 0 && InRange(addr, size, p)
         case OpRegister(addr, size, _, _) => BufValid(addr, size) && addr % pagesize == 0 && InRange(addr, size, p)
         case _ => r.Some? && InRange(r.value, op.size, p)
    }

    /** The operation gave a range whose pages include p the protection prot, the host agreed, and the
        checks for an executable range passed: where verification is skipped, writable and executable needs
        allow_wx; where it is not, prot is not writable and the verifier accepted the bytes of the range. */
    ghost predicate Vetted(op: BoxOp, r: Option<nat>, p: nat, prot: bv32) {
      && pagesize > 0 && r.Some? && r.value % pagesize == 0 && InRange(r.value, op.size, p)
      && ProtOf(op) == Some(prot) && HostAgreed(op, prot)
      && MayHave(prot, SkipsVerify(op), op.h.verifyOk)
    }

    /** The host calls behind the operation succeeded; pages that are registered exist already. */
    ghost predicate HostAgreed(op: BoxOp, prot: bv32) {
      match op
      case OpMapAny(_, _, _, h, _) => h.mapOk && (Executable(prot) && !noVerify && !SkipsVerify(op) ==> h.protectOk)
      case OpMapAt(_, _, _, h) => h.mapOk && (Executable(prot) && !noVerify ==> h.protectOk)
      case OpMprotect(_, _, _, _, h) => h.protectOk
      case _ => true
    }

    /** Any sequence of operations, each with any host and verifier outcome and any random word: the last
        operation that touched a mapped page gave it the protection it has, the host agreed to it, and its
        checks passed. So no protection is recorded that the host refused, no page is writable and executable
        unless allow_wx is set and verification was skipped for it, and every other page that code can run
        from was accepted by the verifier or exempted from it. */
    method Run(ops: seq<BoxOp>) returns (rs: seq<Option<nat>>)
      requires Valid() && Map() == []
      modifies mm.regions, `replaced
      ensures Valid() && (!allowWx ==> NoWX(Map()))
      ensures |rs| == |ops|
      ensures forall p: nat :: At(Map(), p).Some? ==> LastVetted(ops, rs, p, At(Map(), p).value.prot)
    {
      rs := [];
      for i := 0 to |ops|
        invariant Valid() && |rs| == i
        invariant forall p: nat :: At(Map(), p).Some? ==> LastVetted(ops[..i], rs, p, At(Map(), p).value.prot)
      {
        ghost var was := Map();
        var r := Step(ops[i]);
        forall p: nat | At(Map(), p).Some? ensures LastVetted(ops[..i + 1], rs + [r], p, At(Map(), p).value.prot) {
          VettedMore(ops[..i], rs, ops[i], r, p, At(Map(), p).value.prot);
          assert !Touches(ops[i], r, p) ==> At(was, p).Some?;
        }
        assert ops[..i] + [ops[i]] == ops[..i + 1];
        rs := rs + [r];
      }
      assert ops[..|ops|] == ops;
    }

    /** Page p was last touched by an operation that gave it prot and whose checks passed. */
    ghost predicate LastVetted(ops: seq<BoxOp>, rs: seq<Option<nat>>, p: nat, prot: bv32)
      requires |rs| == |ops|
    {
      exists i :: 0 <= i < |ops| && Vetted(ops[i], rs[i], p, prot)
                  && forall j :: i < j < |ops| ==> !Touches(ops[j], rs[j], p)
    }

    /** A page that is writable and executable was left so with verification skipped and allow_wx set. */
    lemma WXIsExempt(ops: seq<BoxOp>, rs: seq<Option<nat>>, p: nat, prot: bv32)
      requires |rs| == |ops| && WX(prot) && LastVetted(ops, rs, p, prot)
      ensures allowWx
      ensures noVerify || exists i :: 0 <= i < |ops| && SkipsVerify(ops[i]) && Vetted(ops[i], rs[i], p, prot)
    {
    }

    lemma VettedMore(ops: seq<BoxOp>, rs: seq<Option<nat>>, op: BoxOp, r: Option<nat>, p: nat, prot: bv32)
      requires |rs| == |ops|
      ensures Vetted(op, r, p, prot) || (LastVetted(ops, rs, p, prot) && !Touches(op, r, p)) ==>
                LastVetted(ops + [op], rs + [r], p, prot)
    {
      hide Vetted, Touches;
      if Vetted(op, r, p, prot) {
        assert (ops + [op])[|ops|] == op && (rs + [r])[|rs|] == r;
      } else if LastVetted(ops, rs, p, prot) && !Touches(op, r, p) {
        var i :| 0 <= i < |ops| && Vetted(ops[i], rs[i], p, prot)
                 && forall j :: i < j < |ops| ==> !Touches(ops[j], rs[j], p);
        assert (ops + [op])[i] == ops[i] && (rs + [r])[i] == rs[i];
      }
    }
  }

  /** The verifier reads the bytes of the request, the mapping covers whole pages: page p is read to its
      end exactly when the size is a multiple of the page size or p is not the last page. */
  lemma WholePage(addr: nat, size: nat, p: nat, ps: nat)
    requires ps > 0 && addr % ps == 0 && addr / ps <= p < addr / ps + AddrSpace.PageCeil(size, ps)
    ensures addr <= p * ps
    ensures p * ps + ps <= addr + size <==> size % ps == 0 || p + 1 < addr / ps + AddrSpace.PageCeil(size, ps)
  {
    var b, q, rest := addr / ps, size / ps, size % ps;
    assert addr == b * ps && size == q * ps + rest;
    PagesEnd(b, q, p, rest, ps);
  }

  lemma PagesEnd(b: nat, q: nat, p: nat, rest: nat, ps: nat)
    requires ps > rest && b <= p <= b + q
    ensures b * ps <= p * ps
    ensures p * ps + ps <= b * ps + q * ps + rest <==> p + 1 <= b + q
  {
    MulOrder(b, p, ps);
    assert p * ps + ps == (p + 1) * ps && b * ps + q * ps == (b + q) * ps;
    if p + 1 <= b + q {
      MulOrder(p + 1, b + q, ps);
    }
  }

  datatype BoxOp =
    | OpMapAny(size: nat, info: MapInfo, noVerify: bool, h: Host, rnd: nat)
    | OpMapAt(addr: nat, size: nat, info: MapInfo, h: Host)
    | OpRegister(addr: nat, size: nat, info: MapInfo, h: Host)
    | OpMprotect(addr: nat, size: nat, prot: bv32, noVerify: bool, h: Host)
    | OpMunmap(addr: nat, size: nat, h: Host)

  /** The protection an operation asks for. */
  function ProtOf(op: BoxOp): (r: Option<bv32>)
    ensures r.None? <==> op.OpMunmap?
    ensures r.Some? ==> r.value == if op.OpMprotect? then op.prot else op.info.prot
  {
    match op
    case OpMapAny(_, info, _, _, _) => Some(info.prot)
    case OpMapAt(_, _, info, _) => Some(info.prot)
    case OpRegister(_, _, info, _) => Some(info.prot)
    case OpMprotect(_, _, prot, _, _) => Some(prot)
    case OpMunmap(_, _, _) => None
  }

  /** lfi_box_mapany_noverify and lfi_box_mprotect_noverify. */
  predicate SkipsVerify(op: BoxOp): (b: bool)
    ensures b <==> (op.OpMapAny? || op.OpMprotect?) && op.noVerify
  {
    match op
    case OpMapAny(_, _, noVerify, _, _) => noVerify
    case OpMprotect(_, _, _, noVerify, _) => noVerify
    case _ => false
  }
}
