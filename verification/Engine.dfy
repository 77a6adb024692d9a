/** core/core.c, lfi_new: is the address space reserved for n boxes enough for n boxes? */
module Engines {
  import opened Wrappers
  import opened Division
  import opened ExtAllocs
  import opened Slots
  import opened BoxMaps

  const CHUNK: nat := 4 * GB

  /** The size lfi_new computes, in a 64-bit word. */
  function Reservation(n: nat, footprint: nat, guard: nat): nat { Wrap(n * footprint + CHUNK + 2 * guard) }

  /** The sum does not wrap around. */
  predicate Representable(n: nat, footprint: nat, guard: nat) { n * footprint + CHUNK + 2 * guard < TWO64 }

  // ----- one chunk of slack is enough for any alignment -----

  lemma FloorShift(x: int, q: int, c: nat)
    requires c > 0
    ensures Floor(x + q * c, c) == Floor(x, c) + q * c
  {
    var p, r := x / c, x % c;
    assert x == p * c + r;
    assert x + q * c == (p + q) * c + r;
    DivUnique(x + q * c, c, p + q, r);
  }

  lemma RoofIsNext(x: int, c: nat)
    requires c > 0
    ensures Roof(x, c) <= Floor(x, c) + c
  {
  }

  /** Wherever the mapping lies, q chunks are left of q + 1 chunks and two guards. */
  lemma SlackCoversAlignment(base: nat, q: nat, guard: nat, c: nat)
    requires c > 0
    ensures Usable(base, q * c + c + 2 * guard, guard, c) >= q * c
  {
    var x := base + guard;
    assert q * c + c == (q + 1) * c;
    assert base + (q * c + c + 2 * guard) - guard == x + (q + 1) * c;
    FloorShift(x, q + 1, c);
    RoofIsNext(x, c);
  }

  lemma DivAtLeast(x: nat, q: nat, c: nat)
    requires c > 0 && x >= q * c
    ensures x / c >= q
  {
    assert x == x / c * c + x % c;
    assert (x / c + 1) * c == x / c * c + c;
    CancelLess(q, x / c + 1, c);
  }

  lemma DivAtMost(x: nat, c: nat)
    requires c > 0
    ensures x / c * c <= x
  {
    assert x == x / c * c + x % c;
  }

  lemma SlotsAtLeast(bytes: nat, n: nat, k: nat, c: nat)
    requires c > 0 && k > 0 && bytes >= n * k * c
    ensures SlotsIn(bytes, c, k) >= n
  {
    if bytes > 0 {
      DivAtLeast(bytes, n * k, c);
      DivAtLeast(bytes / c, n, k);
    } else {
      ZeroProduct(n, k, c);
    }
  }

  lemma ZeroProduct(n: nat, k: nat, c: nat)
    requires c > 0 && k > 0 && n * k * c <= 0
    ensures n == 0
  {
    if n > 0 {
      ProductPositive(n, k);
      ProductPositive(n * k, c);
    }
  }

  lemma SlotsAtMost(bytes: int, k: nat, c: nat)
    requires c > 0 && k > 0
    ensures SlotsIn(bytes, c, k) * (k * c) <= if bytes > 0 then bytes else 0
  {
    if bytes > 0 {
      DivAtMost(bytes, c);
      DivNonNeg(bytes, c);
      DivAtMost(bytes / c, k);
      DivNonNeg(bytes / c, k);
      ProductChain(bytes / c / k, k, bytes / c, c, bytes);
    }
  }

  lemma ProductChain(s: nat, k: nat, a: nat, c: nat, x: nat)
    requires s * k <= a && a * c <= x
    ensures s * (k * c) <= x
  {
    ProductOrder(s * k, a, c);
    assert s * k * c == s * (k * c);
  }

  lemma UsableAtMost(base: nat, size: nat, guard: nat, c: nat)
    requires c > 0
    ensures Usable(base, size, guard, c) <= size - 2 * guard
  {
    FloorIsMultiple(base + size - guard, c);
    FloorIsMultiple(base + guard, c);
  }

  // ----- the reservation -----

  lemma ProductGroups(n: nat, k: nat, c: nat)
    ensures n * (k * c) == n * k * c
  {
  }

  lemma AsksForSomething(n: nat, footprint: nat, guard: nat)
    requires Representable(n, footprint, guard)
    ensures Reservation(n, footprint, guard) == n * footprint + CHUNK + 2 * guard > 0
  {
  }

  /** A reservation that did not wrap holds n boxes, at any base. */
  lemma ReservationEnough(n: nat, k: nat, guard: nat, base: nat)
    requires k > 0 && Representable(n, k * CHUNK, guard)
    ensures SlotsIn(Usable(base, Reservation(n, k * CHUNK, guard), guard, CHUNK), CHUNK, k) >= n
  {
    ProductGroups(n, k, CHUNK);
    SlackCoversAlignment(base, n * k, guard, CHUNK);
    hide Usable, SlotsIn;
    SlotsAtLeast(Usable(base, Reservation(n, k * CHUNK, guard), guard, CHUNK), n, k, CHUNK);
  }

  lemma TooFew(slots: nat, n: nat, f: nat, bytes: int)
    requires slots * f <= bytes < n * f
    ensures slots < n
  {
    if slots >= n {
      ProductOrder(n, slots, f);
    }
  }

  lemma WrapLoses(x: nat)
    requires x >= TWO64
    ensures Wrap(x) <= x - TWO64
  {
  }

  /** A reservation that wrapped does not, at any base. */
  lemma ReservationShort(n: nat, k: nat, guard: nat, base: nat)
    requires k > 0 && guard <= MAX_ALIGN && !Representable(n, k * CHUNK, guard)
    ensures SlotsIn(Usable(base, Reservation(n, k * CHUNK, guard), guard, CHUNK), CHUNK, k) < n
  {
    var f, size := k * CHUNK, Reservation(n, k * CHUNK, guard);
    var usable := Usable(base, size, guard, CHUNK);
    WrapLoses(n * f + CHUNK + 2 * guard);
    UsableAtMost(base, size, guard, CHUNK);
    SlotsAtMost(usable, k, CHUNK);
    TooFew(SlotsIn(usable, CHUNK, k), n, f, if usable > 0 then usable else 0);
  }

  /** 2^31 boxes of 8 GiB: the product is 2^64, and lfi_new reserves 12 GiB, which hold not one of them. */
  lemma WrapExample(base: nat)
    ensures Reservation(0x8000_0000, 8 * GB, 4 * GB) == 12 * GB
    ensures SlotsIn(Usable(base, 12 * GB, 4 * GB, CHUNK), CHUNK, 2) == 0
  {
    UsableAtMost(base, 12 * GB, 4 * GB, CHUNK);
    SlotsAtMost(Usable(base, 12 * GB, 4 * GB, CHUNK), 2, CHUNK);
  }

  /** What a successful boxmap_reserve of that size leaves. */
  lemma Reserved(bm: BoxMap, n: nat, k: nat, guard: nat)
    requires bm.Valid() && bm.k == k && bm.chunk == CHUNK && bm.guard == guard <= CHUNK
    requires var bytes := Reservation(n, k * CHUNK, guard);
             if bytes > 0 then
               && |bm.regions| == 1
               && bm.rows == [Rep(false, SlotsIn(Usable(bm.regions[0].mapbase, bytes, guard, CHUNK), CHUNK, k))]
             else Span(bm.regions) <= 256 * TB
    ensures Capacity(bm.rows) >= n <==> Representable(n, k * CHUNK, guard)
  {
    var bytes := Reservation(n, k * CHUNK, guard);
    if bytes > 0 {
      var base := bm.regions[0].mapbase;
      assert bm.rows[1..] == [];
      hide Usable, SlotsIn, Reservation;
      if Representable(n, k * CHUNK, guard) {
        ReservationEnough(n, k, guard, base);
      } else {
        ReservationShort(n, k, guard, base);
      }
    } else {
      bm.RowsFit();
      WrappedToZero(n * (k * CHUNK), guard);
      TooFew(Capacity(bm.rows), n, k * CHUNK, Span(bm.regions));
    }
  }

  lemma WrappedToZero(x: nat, guard: nat)
    requires guard <= CHUNK && Wrap(x + CHUNK + 2 * guard) == 0
    ensures x + CHUNK + 2 * guard >= TWO64 && x > 256 * TB
  {
  }

  /** The kernel gives so many bytes somewhere below the limit, there is memory for the region, the second
      mmap succeeds, and a chunk is left between the guards. */
  ghost predicate Granted(host: Host, bytes: nat, guard: nat) {
    && host.mmap(0, bytes).Some? && host.memory(0) && host.fixed(0)
    && 0 < host.mmap(0, bytes).value && host.mmap(0, bytes).value + bytes <= LIMIT
    && Usable(host.mmap(0, bytes).value, bytes, guard, CHUNK) > 0
  }

  /** lfi_new, for boxes whose footprint is k chunks: it either fails or can hold n boxes, exactly when
      the size it computes did not wrap around. */
  method LfiNew(n: nat, k: nat, guard: nat, memory: bool, host: Host) returns (ok: bool, bm: BoxMap)
    requires k > 0 && guard <= CHUNK
    ensures fresh(bm) && fresh(bm.Footprint())
    ensures ok ==> bm.Valid() && bm.k == k && bm.chunk == CHUNK && Total(bm.rows) == 0
    ensures ok && n > 0 ==> (Capacity(bm.rows) >= n <==> Representable(n, k * CHUNK, guard))
    ensures !memory ==> !ok
    ensures n == 0 ==> ok == memory
    ensures n > 0 && Reservation(n, k * CHUNK, guard) > 0 ==>
              (ok <==> memory && Granted(host, Reservation(n, k * CHUNK, guard), guard))
  {
    bm := new BoxMap(CHUNK, guard, k);
    if !memory {
      return false, bm;
    }
    var reserve := Reservation(n, k * CHUNK, guard);
    if n > 0 {
      ok := bm.BoxmapReserve(reserve, host);
      if !ok {
        return;
      }
      Reserved(bm, n, k, guard);
    }
    ok := true;
  }

  /** The reservation of lfi_box_new: whenever fewer boxes are live than there are slots it succeeds, and
      the number of slots stays. */
  method BoxSpace(bm: BoxMap, bytes: nat) returns (p: nat, ghost at: nat, ghost q: nat)
    requires bm.Valid() && bytes == bm.k * bm.chunk
    modifies bm.Footprint()
    ensures bm.Valid() && bm.regions == old(bm.regions) && Capacity(bm.rows) == Capacity(old(bm.rows))
    ensures p != 0 <==> Total(old(bm.rows)) < Capacity(old(bm.rows))
    ensures Total(bm.rows) == Total(old(bm.rows)) + if p != 0 then 1 else 0
    ensures p == 0 ==> bm.rows == old(bm.rows)
    ensures p != 0 ==>
              && at < |bm.regions| && at < |old(bm.rows)| && q < |old(bm.rows)[at]| && !old(bm.rows)[at][q]
              && p == bm.regions[at].SlotAddr(q, bm.k)
              && bm.rows == old(bm.rows)[at := old(bm.rows)[at][q := true]]
  {
    ghost var was := bm.rows;
    FullIffTotal(was);
    p, at, q := bm.AddSpace(bytes);
    if p != 0 {
      TotalUpdate(was, at, q, true);
    }
  }

  /** The return of a box's space: exactly one more slot is free. */
  method FreeBoxSpace(bm: BoxMap, p: nat, bytes: nat, ghost at: nat, ghost q: nat)
    requires bm.Valid() && bytes == bm.k * bm.chunk
    requires at < |bm.regions| && at < |bm.rows| && q < |bm.rows[at]| && bm.rows[at][q]
    requires p == bm.regions[at].SlotAddr(q, bm.k)
    modifies bm.Footprint()
    ensures bm.Valid() && bm.regions == old(bm.regions) && Capacity(bm.rows) == Capacity(old(bm.rows))
    ensures Total(bm.rows) == Total(old(bm.rows)) - 1
    ensures bm.rows == old(bm.rows)[at := old(bm.rows)[at][q := false]]
  {
    ghost var was := bm.rows;
    TotalUpdate(was, at, q, false);
    bm.RemoveSpace(p, bytes, at, q);
  }

  // ----- runs -----

  /** Creating a box, or removing the i-th of the live ones. */
  datatype BoxEvent = Create | Remove(i: nat)

  predicate AllCreate(events: seq<BoxEvent>) { forall i :: 0 <= i < |events| ==> events[i].Create? }

  /** Different slots, all taken. */
  ghost predicate Taken(rows: seq<seq<bool>>, slots: seq<(nat, nat)>) {
    && (forall j :: 0 <= j < |slots| ==>
          slots[j].0 < |rows| && slots[j].1 < |rows[slots[j].0]| && rows[slots[j].0][slots[j].1])
    && (forall i, j :: 0 <= i < j < |slots| ==> slots[i] != slots[j])
  }

  lemma TakenMore(rows: seq<seq<bool>>, slots: seq<(nat, nat)>, at: nat, q: nat)
    requires Taken(rows, slots) && at < |rows| && q < |rows[at]| && !rows[at][q]
    ensures Taken(rows[at := rows[at][q := true]], slots + [(at, q)])
  {
  }

  lemma TakenLess(rows: seq<seq<bool>>, slots: seq<(nat, nat)>, i: nat)
    requires Taken(rows, slots) && i < |slots|
    ensures var (at, q) := slots[i];
            at < |rows| && q < |rows[at]| && Taken(rows[at := rows[at][q := false]], slots[..i] + slots[i + 1..])
  {
  }

  /** Where the live boxes are. */
  ghost predicate Placed(regions: seq<Region>, k: nat, live: seq<nat>, slots: seq<(nat, nat)>) {
    && |live| == |slots|
    && forall j :: 0 <= j < |slots| ==> slots[j].0 < |regions| && live[j] == regions[slots[j].0].SlotAddr(slots[j].1, k)
  }

  /** The live boxes and the slots they lie in. */
  ghost predicate Tracks(bm: BoxMap, live: seq<nat>, slots: seq<(nat, nat)>)
    reads bm, bm.regions, set r: Region | r in bm.regions :: r.alloc.bitvec
  {
    bm.Valid() && |live| == Total(bm.rows) && Taken(bm.rows, slots) && Placed(bm.regions, bm.k, live, slots)
  }

  method CreateBox(bm: BoxMap, bytes: nat, live: seq<nat>, ghost slots: seq<(nat, nat)>)
    returns (refused: bool, now: seq<nat>, ghost nowSlots: seq<(nat, nat)>)
    requires Tracks(bm, live, slots) && bytes == bm.k * bm.chunk
    modifies bm.Footprint()
    ensures Tracks(bm, now, nowSlots) && bm.regions == old(bm.regions)
    ensures Capacity(bm.rows) == Capacity(old(bm.rows)) && (refused <==> |live| == Capacity(old(bm.rows)))
    ensures |now| == |live| + if refused then 0 else 1
  {
    hide BoxMap.Valid, Total, Capacity, Taken;
    ghost var was := bm.rows;
    FullIffTotal(was);
    var p, at, q := BoxSpace(bm, bytes);
    refused, now, nowSlots := p == 0, live, slots;
    if p != 0 {
      now, nowSlots := live + [p], slots + [(at, q)];
      TakenMore(was, slots, at, q);
    }
  }

  method RemoveBox(bm: BoxMap, bytes: nat, i: nat, live: seq<nat>, ghost slots: seq<(nat, nat)>)
    returns (now: seq<nat>, ghost nowSlots: seq<(nat, nat)>)
    requires Tracks(bm, live, slots) && bytes == bm.k * bm.chunk && i < |live|
    modifies bm.Footprint()
    ensures Tracks(bm, now, nowSlots) && bm.regions == old(bm.regions)
    ensures Capacity(bm.rows) == Capacity(old(bm.rows)) && |now| == |live| - 1
  {
    hide BoxMap.Valid, Total, Capacity;
    TakenLess(bm.rows, slots, i);
    FreeBoxSpace(bm, live[i], bytes, slots[i].0, slots[i].1);
    now, nowSlots := live[..i] + live[i + 1..], slots[..i] + slots[i + 1..];
  }

  /** Any run of creations and removals on a new engine: a creation is refused only while as many boxes
      are live as there are slots. */
  method RunBoxes(bm: BoxMap, bytes: nat, events: seq<BoxEvent>) returns (liveAtRefusal: seq<nat>)
    requires bm.Valid() && Total(bm.rows) == 0 && bytes == bm.k * bm.chunk
    modifies bm.Footprint()
    ensures bm.Valid() && Capacity(bm.rows) == Capacity(old(bm.rows))
    ensures forall j :: 0 <= j < |liveAtRefusal| ==> liveAtRefusal[j] == Capacity(old(bm.rows))
    ensures AllCreate(events) ==> (liveAtRefusal == [] <==> |events| <= Capacity(old(bm.rows)))
  {
    hide Total, Capacity, BoxMap.Valid;
    liveAtRefusal := [];
    var live: seq<nat> := [];
    ghost var slots: seq<(nat, nat)> := [];
    for i := 0 to |events|
      invariant Tracks(bm, live, slots) && bm.regions == old(bm.regions)
      invariant Capacity(bm.rows) == Capacity(old(bm.rows)) && |live| <= Capacity(old(bm.rows))
      invariant AllCreate(events) ==> if liveAtRefusal == [] then |live| == i else Capacity(old(bm.rows)) < i
      invariant forall j :: 0 <= j < |liveAtRefusal| ==> liveAtRefusal[j] == Capacity(old(bm.rows))
    {
      match events[i]
      case Create =>
        var n := |live|;
        var refused;
        refused, live, slots := CreateBox(bm, bytes, live, slots);
        if refused {
          liveAtRefusal := liveAtRefusal + [n];
        }
      case Remove(j) =>
        if j < |live| {
          live, slots := RemoveBox(bm, bytes, j, live, slots);
        }
    }
  }

  /** lfi_new for n boxes and then any run: every refusal comes with n or more boxes live, and n boxes
      can be created, exactly when the size lfi_new computes does not wrap around. */
  method EndToEnd(n: nat, k: nat, guard: nat, memory: bool, host: Host, events: seq<BoxEvent>)
    returns (ok: bool, liveAtRefusal: seq<nat>)
    requires n > 0 && k > 0 && guard <= CHUNK
    ensures Representable(n, k * CHUNK, guard) ==>
              (ok <==> memory && Granted(host, Reservation(n, k * CHUNK, guard), guard))
    ensures ok ==> forall j :: 0 <= j < |liveAtRefusal| ==>
                     (liveAtRefusal[j] >= n <==> Representable(n, k * CHUNK, guard))
    ensures ok && AllCreate(events) && |events| == n ==>
              (liveAtRefusal == [] <==> Representable(n, k * CHUNK, guard))
  {
    if Representable(n, k * CHUNK, guard) {
      AsksForSomething(n, k * CHUNK, guard);
    }
    hide Total, Capacity, BoxMap.Valid, Representable, Granted, Reservation;
    var bm;
    ok, bm := LfiNew(n, k, guard, memory, host);
    liveAtRefusal := [];
    if ok {
      liveAtRefusal := RunBoxes(bm, k * CHUNK, events);
    }
  }

  /** Different slots are different address ranges. */
  lemma SlotsDisjoint(bm: BoxMap, i: nat, p: nat, j: nat, q: nat)
    requires bm.Valid() && i < |bm.regions| && j < |bm.regions| && p < |bm.rows[i]| && q < |bm.rows[j]|
    requires i != j || p != q
    ensures var a, b, n := bm.regions[i].SlotAddr(p, bm.k), bm.regions[j].SlotAddr(q, bm.k), bm.k * bm.chunk;
            a + n <= b || b + n <= a
  {
    if i != j {
      SlotInside(bm.regions[i], bm.rows[i], p, bm.k, bm.chunk, bm.guard);
      SlotInside(bm.regions[j], bm.rows[j], q, bm.k, bm.chunk, bm.guard);
    } else if p < q {
      SlotsApart(bm.regions[i].alloc.base, p, q, bm.k, bm.chunk);
    } else {
      SlotsApart(bm.regions[i].alloc.base, q, p, bm.k, bm.chunk);
    }
  }

  /** Every box lies at least the guard inside its mapping. */
  lemma SlotsGuarded(bm: BoxMap, i: nat, q: nat)
    requires bm.Valid() && i < |bm.regions| && q < |bm.rows[i]|
    ensures var r, a, n := bm.regions[i], bm.regions[i].SlotAddr(q, bm.k), bm.k * bm.chunk;
            r.mapbase + bm.guard <= a && a + n + bm.guard <= r.mapbase + r.mapsize
  {
    SlotInside(bm.regions[i], bm.rows[i], q, bm.k, bm.chunk, bm.guard);
  }

  lemma SlotsApart(a: nat, p: nat, q: nat, k: nat, c: nat)
    requires p < q
    ensures (a + p * k) * c + k * c <= (a + q * k) * c
  {
    ProductOrder(p + 1, q, k);
    assert (p + 1) * k == p * k + k;
    ProductOrder(a + p * k + k, a + q * k, c);
    assert (a + p * k + k) * c == (a + p * k) * c + k * c;
  }
}
