/** core/mmap/range_map.h: an ordered map of disjoint ranges [start, end) with values.

    The std::map is modelled by the sequence of its entries in key order and an
    iterator by an index into it. The meaning of the map is the partial function
    `At` from points to values; everything below relates the entries to it. */
module RangeMaps {
  import opened Wrappers

  datatype Entry<V> = Entry(start: nat, end: nat, val: V)
  datatype Gap = Gap(start: nat, end: nat)

  // ----- meaning of a sequence of entries -----

  ghost predicate Covers<V>(e: Entry<V>, p: nat) { e.start <= p < e.end }

  /** The value at point p: that of the first entry covering it. */
  ghost function At<V>(es: seq<Entry<V>>, p: nat): Option<V> {
    if es == [] then None
    else if Covers(es[0], p) then Some(es[0].val)
    else At(es[1..], p)
  }

  ghost predicate Sorted<V>(es: seq<Entry<V>>) {
    && (forall i :: 0 <= i < |es| ==> es[i].start < es[i].end)
    && (forall i, j :: 0 <= i < j < |es| ==> es[i].end <= es[j].start)
  }

  ghost predicate Mergeable<V>(a: Entry<V>, b: Entry<V>) { a.end == b.start && a.val == b.val }

  /** Non-empty, disjoint, ordered, and no two touching neighbours with one value. */
  ghost predicate Canonical<V>(es: seq<Entry<V>>) {
    && Sorted(es)
    && (forall i :: 0 <= i < |es| - 1 ==> !Mergeable(es[i], es[i + 1]))
  }

  lemma {:induction false} AtConcat<V>(a: seq<Entry<V>>, b: seq<Entry<V>>, p: nat)
    ensures At(a + b, p) == if At(a, p).Some? then At(a, p) else At(b, p)
  {
    if a == [] {
      assert a + b == b;
    } else {
      assert (a + b)[0] == a[0] && (a + b)[1..] == a[1..] + b;
      AtConcat(a[1..], b, p);
    }
  }

  lemma {:induction false} AtNone<V>(es: seq<Entry<V>>, p: nat)
    requires forall i :: 0 <= i < |es| ==> !Covers(es[i], p)
    ensures At(es, p) == None
  {
    if es != [] {
      assert !Covers(es[0], p);
      AtNone(es[1..], p);
    }
  }

  lemma {:induction false} AtSome<V>(es: seq<Entry<V>>, i: nat, p: nat)
    requires Sorted(es) && i < |es| && Covers(es[i], p)
    ensures At(es, p) == Some(es[i].val)
  {
    if i > 0 {
      assert es[0].end <= es[i].start;
      AtSome(es[1..], i - 1, p);
    }
  }

  /** A mapped point lies in some entry. */
  lemma {:induction false} AtIndex<V>(es: seq<Entry<V>>, p: nat) returns (i: nat)
    requires At(es, p).Some?
    ensures i < |es| && Covers(es[i], p) && es[i].val == At(es, p).value
  {
    if Covers(es[0], p) {
      i := 0;
    } else {
      i := AtIndex(es[1..], p);
      i := i + 1;
    }
  }

  /** Two canonical maps with the same meaning are the same sequence of entries. */
  lemma {:induction false} CanonicalUnique<V>(a: seq<Entry<V>>, b: seq<Entry<V>>)
    requires Canonical(a) && Canonical(b)
    requires forall p: nat :: At(a, p) == At(b, p)
    ensures a == b
  {
    if a == [] {
      if b != [] {
        StartMapped(b);
      }
    } else if b == [] {
      StartMapped(a);
    } else {
      StartNotAfter(a, b);
      StartNotAfter(b, a);
      assert At(a, a[0].start) == At(b, b[0].start);
      EndNotBefore(a, b);
      EndNotBefore(b, a);
      assert a[0] == b[0];
      forall p: nat ensures At(a[1..], p) == At(b[1..], p) {
        if p < a[0].end {
          AtNone(a[1..], p);
          AtNone(b[1..], p);
        } else {
          assert At(a, p) == At(b, p);
        }
      }
      CanonicalUnique(a[1..], b[1..]);
    }
  }

  lemma StartMapped<V>(a: seq<Entry<V>>)
    requires Sorted(a) && a != []
    ensures At(a, a[0].start) == Some(a[0].val)
  {
  }

  lemma StartNotAfter<V>(a: seq<Entry<V>>, b: seq<Entry<V>>)
    requires Sorted(a) && Sorted(b) && a != [] && b != []
    requires forall p: nat :: At(a, p) == At(b, p)
    ensures b[0].start <= a[0].start
  {
    assert At(a, a[0].start).Some?;
    var i := AtIndex(b, a[0].start);
  }

  lemma EndNotBefore<V>(a: seq<Entry<V>>, b: seq<Entry<V>>)
    requires Canonical(a) && Canonical(b) && a != [] && b != []
    requires forall p: nat :: At(a, p) == At(b, p)
    requires a[0].start == b[0].start && a[0].val == b[0].val
    ensures b[0].end <= a[0].end
  {
    var p := a[0].end;
    if p < b[0].end {
      assert At(b, p) == Some(b[0].val);
      assert At(a, p) == At(b, p);
      var i := AtIndex(a, p);
    }
  }

  // ----- the erase loop shared by insert and remove -----

  /** es is a + m + b where m are exactly the entries overlapping [start, end). */
  ghost predicate Split<V>(a: seq<Entry<V>>, m: seq<Entry<V>>, b: seq<Entry<V>>, start: nat, end: nat) {
    && Sorted(a + m + b)
    && (forall i :: 0 <= i < |a| ==> a[i].end <= start)
    && (forall i :: 0 <= i < |m| ==> m[i].start < end && start < m[i].end)
    && (forall i :: 0 <= i < |b| ==> end <= b[i].start)
  }

  lemma NothingSorted<V>()
    ensures Sorted<V>([])
  {
  }

  /** The middle of a split is exactly the overlapping entries. */
  lemma SplitMembers<V>(a: seq<Entry<V>>, m: seq<Entry<V>>, b: seq<Entry<V>>, start: nat, end: nat)
    requires Split(a, m, b, start, end)
    ensures Sorted(m) && forall e :: e in m <==> e in a + m + b && e.start < end && start < e.end
  {
    SplitParts(a, m, b);
  }

  ghost function LeftStub<V>(m: seq<Entry<V>>, start: nat): seq<Entry<V>> {
    if m != [] && m[0].start < start then [Entry(m[0].start, start, m[0].val)] else []
  }

  ghost function RightStub<V>(m: seq<Entry<V>>, end: nat): seq<Entry<V>> {
    if m != [] && m[|m| - 1].end > end then [Entry(end, m[|m| - 1].end, m[|m| - 1].val)] else []
  }

  ghost function Cut<V>(a: seq<Entry<V>>, m: seq<Entry<V>>, b: seq<Entry<V>>, start: nat, end: nat): seq<Entry<V>> {
    (a + LeftStub(m, start)) + (RightStub(m, end) + b)
  }

  /** The erase loop has left a alone, erased m, and has yet to look at b. */
  ghost predicate Scanned<V>(a: seq<Entry<V>>, m: seq<Entry<V>>, b: seq<Entry<V>>, start: nat, end: nat) {
    && Sorted(a + m + b)
    && (forall i :: 0 <= i < |a| ==> a[i].end <= start)
    && (forall i :: 0 <= i < |m| ==> m[i].start < end && start < m[i].end)
    && (forall i :: 0 <= i < |b| ==> start < b[i].end)
  }

  lemma EraseStep<V>(a: seq<Entry<V>>, m: seq<Entry<V>>, b: seq<Entry<V>>, start: nat, end: nat)
    requires Scanned(a, m, b, start, end) && b != [] && b[0].start < end
    ensures Scanned(a, m + [b[0]], b[1..], start, end)
    ensures a + m + b == a + (m + [b[0]]) + b[1..]
    ensures LeftStub(m + [b[0]], start) ==
            if b[0].start < start then [Entry(b[0].start, start, b[0].val)] else LeftStub(m, start)
    ensures RightStub(m + [b[0]], end) ==
            if b[0].end > end then [Entry(end, b[0].end, b[0].val)] else RightStub(m, end)
  {
    assert a + m + b == a + (m + [b[0]]) + b[1..];
    SplitParts(a, m + [b[0]], b[1..]);
    StubStep(m, b[0], start, end);
  }

  lemma EraseFirst<T>(a: seq<T>, b: seq<T>)
    requires b != []
    ensures (a + b)[|a|] == b[0] && (a + b)[..|a|] + (a + b)[|a| + 1..] == a + b[1..]
  {
  }

  lemma EraseDone<V>(a: seq<Entry<V>>, m: seq<Entry<V>>, b: seq<Entry<V>>, start: nat, end: nat)
    requires Scanned(a, m, b, start, end) && (b != [] ==> end <= b[0].start)
    ensures Split(a, m, b, start, end)
  {
    SplitParts(a, m, b);
  }

  lemma EraseStart<V>(es: seq<Entry<V>>, it: nat, start: nat, end: nat)
    requires Sorted(es) && it <= |es|
    requires forall j :: 0 <= j < it ==> es[j].end <= start
    requires forall j :: it <= j < |es| ==> start < es[j].end
    ensures es == es[..it] + [] + es[it..] && Scanned(es[..it], [], es[it..], start, end)
  {
    assert es == es[..it] + [] + es[it..];
  }

  ghost function AsSeq<V>(o: Option<Entry<V>>): seq<Entry<V>> {
    if o.Some? then [o.value] else []
  }

  /** How the stubs change when one more overlapping entry is erased. */
  lemma StubStep<V>(m: seq<Entry<V>>, e: Entry<V>, start: nat, end: nat)
    requires Sorted(m + [e]) && e.start < end
    requires forall i :: 0 <= i < |m| ==> start < m[i].end
    ensures LeftStub(m + [e], start) == if e.start < start then [Entry(e.start, start, e.val)] else LeftStub(m, start)
    ensures RightStub(m + [e], end) == if e.end > end then [Entry(end, e.end, e.val)] else RightStub(m, end)
  {
    var es := m + [e];
    assert es[|m|] == e;
    if m != [] {
      assert es[0].end <= es[|m|].start;
      assert es[|m| - 1].end <= es[|m|].start;
    }
  }

  /** Below the cut the stubs mean what the erased entries meant. */
  lemma CutLeftAt<V>(a: seq<Entry<V>>, m: seq<Entry<V>>, b: seq<Entry<V>>, start: nat, end: nat, p: nat)
    requires Split(a, m, b, start, end) && start < end
    ensures p < start ==> At(a + LeftStub(m, start), p) == At(a + m + b, p)
    ensures start <= p ==> At(a + LeftStub(m, start), p) == None
  {
    SplitParts(a, m, b);
    AtConcat(a, LeftStub(m, start), p);
    AtConcat(a, m, p);
    AtConcat(a + m, b, p);
    if p < start {
      AtNone(b, p);
      if m != [] {
        assert m == [m[0]] + m[1..];
        AtNone(m[1..], p);
      }
    } else {
      AtNone(a, p);
      AtNone(LeftStub(m, start), p);
    }
  }

  lemma RightStubAt<V>(m: seq<Entry<V>>, end: nat, p: nat)
    requires Sorted(m)
    requires forall i :: 0 <= i < |m| ==> m[i].start < end
    ensures At(RightStub(m, end), p) == if end <= p then At(m, p) else None
  {
    if p < end {
      AtNone(RightStub(m, end), p);
    } else if m != [] {
      var k := |m| - 1;
      assert m == m[..k] + [m[k]];
      AtNone(m[..k], p);
      AtConcat(m[..k], [m[k]], p);
    }
  }

  lemma CutRightAt<V>(a: seq<Entry<V>>, m: seq<Entry<V>>, b: seq<Entry<V>>, start: nat, end: nat, p: nat)
    requires Split(a, m, b, start, end) && start < end
    ensures end <= p ==> At(RightStub(m, end) + b, p) == At(a + m + b, p)
    ensures p < end ==> At(RightStub(m, end) + b, p) == None
  {
    SplitParts(a, m, b);
    RightStubAt(m, end, p);
    AtConcat(RightStub(m, end), b, p);
    AtConcat(a, m, p);
    AtConcat(a + m, b, p);
    AtNone(if end <= p then a else b, p);
  }

  lemma SortedConcat<V>(x: seq<Entry<V>>, y: seq<Entry<V>>)
    requires Sorted(x + y)
    ensures Sorted(x) && Sorted(y)
    ensures forall i, j :: 0 <= i < |x| && 0 <= j < |y| ==> x[i].end <= y[j].start
  {
    var es := x + y;
    forall i | 0 <= i < |x| ensures es[i] == x[i] {}
    forall i | 0 <= i < |y| ensures es[|x| + i] == y[i] {}
  }

  lemma SplitParts<V>(a: seq<Entry<V>>, m: seq<Entry<V>>, b: seq<Entry<V>>)
    requires Sorted(a + m + b)
    ensures Sorted(a) && Sorted(m) && Sorted(b)
    ensures forall i, j :: 0 <= i < |a| && 0 <= j < |m| ==> a[i].end <= m[j].start
    ensures forall i, j :: 0 <= i < |m| && 0 <= j < |b| ==> m[i].end <= b[j].start
    ensures forall i, j :: 0 <= i < |a| && 0 <= j < |b| ==> a[i].end <= b[j].start
  {
    SortedConcat(a + m, b);
    SortedConcat(a, m);
    forall i, j | 0 <= i < |m| && 0 <= j < |b| ensures m[i].end <= b[j].start {
      assert (a + m)[|a| + i] == m[i];
    }
    forall i, j | 0 <= i < |a| && 0 <= j < |b| ensures a[i].end <= b[j].start {
      assert (a + m)[i] == a[i];
    }
  }

  /** Cutting a range out of a canonical map leaves a canonical map, unmapped exactly there. */
  lemma CutMeaning<V>(a: seq<Entry<V>>, m: seq<Entry<V>>, b: seq<Entry<V>>, start: nat, end: nat, p: nat)
    requires Split(a, m, b, start, end) && start < end
    ensures At(Cut(a, m, b, start, end), p) == if start <= p < end then None else At(a + m + b, p)
  {
    CutLeftAt(a, m, b, start, end, p);
    CutRightAt(a, m, b, start, end, p);
    AtConcat(a + LeftStub(m, start), RightStub(m, end) + b, p);
  }

  lemma CutSorted<V>(a: seq<Entry<V>>, m: seq<Entry<V>>, b: seq<Entry<V>>, start: nat, end: nat)
    requires Split(a, m, b, start, end) && start < end
    ensures Sorted(a + LeftStub(m, start)) && Sorted(RightStub(m, end) + b)
    ensures forall i :: 0 <= i < |a + LeftStub(m, start)| ==> (a + LeftStub(m, start))[i].end <= start
    ensures forall i :: 0 <= i < |RightStub(m, end) + b| ==> end <= (RightStub(m, end) + b)[i].start
  {
    SplitParts(a, m, b);
  }

  /** The two halves of a cut have no mergeable neighbours of their own. */
  lemma CutHalves<V>(a: seq<Entry<V>>, m: seq<Entry<V>>, b: seq<Entry<V>>, start: nat, end: nat)
    requires Split(a, m, b, start, end) && start < end && Canonical(a + m + b)
    ensures Canonical(a + LeftStub(m, start)) && Canonical(RightStub(m, end) + b)
  {
    CutSorted(a, m, b, start, end);
    var es := a + m + b;
    var l, r := a + LeftStub(m, start), RightStub(m, end) + b;
    forall i | 0 <= i < |l| - 1 ensures !Mergeable(l[i], l[i + 1]) {
      assert !Mergeable(es[i], es[i + 1]);
    }
    forall i | 0 <= i < |r| - 1 ensures !Mergeable(r[i], r[i + 1]) {
      var k := |es| - |r| + i;
      assert !Mergeable(es[k], es[k + 1]);
    }
  }

  /** Key k falls strictly between the keys of x and those of y. */
  ghost predicate Between<V>(x: seq<Entry<V>>, k: nat, y: seq<Entry<V>>) {
    && (forall i :: 0 <= i < |x| ==> x[i].start < k)
    && (y != [] ==> k < y[0].start)
  }

  /** What lies left of the range and its stub starts before it. */
  lemma LeftKeys<V>(a: seq<Entry<V>>, m: seq<Entry<V>>, b: seq<Entry<V>>, start: nat, end: nat)
    requires Split(a, m, b, start, end) && start < end
    ensures LeftStub(m, start) != [] ==> Between(a, LeftStub(m, start)[0].start, b)
    ensures forall x :: x in a + LeftStub(m, start) ==> x.start < start
  {
    SplitParts(a, m, b);
    assert forall i :: 0 <= i < |a| ==> a[i].start < a[i].end <= start;
  }

  /** What lies right of the range starts at its end or later, the stub first. */
  lemma RightKeys<V>(a: seq<Entry<V>>, m: seq<Entry<V>>, b: seq<Entry<V>>, start: nat, end: nat)
    requires Split(a, m, b, start, end) && start < end
    ensures RightStub(m, end) + b != [] ==> end <= (RightStub(m, end) + b)[0].start
    ensures RightStub(m, end) != [] && b != [] ==> end < b[0].start
  {
    SplitParts(a, m, b);
    if RightStub(m, end) != [] && b != [] {
      assert m[|m| - 1].end <= b[0].start;
    }
  }

  /** Where the keys of the stubs and of the new range fall. */
  lemma StubKeys<V>(a: seq<Entry<V>>, m: seq<Entry<V>>, b: seq<Entry<V>>, start: nat, end: nat)
    requires Split(a, m, b, start, end) && start < end
    ensures LeftStub(m, start) != [] ==> Between(a, LeftStub(m, start)[0].start, b)
    ensures RightStub(m, end) != [] ==> Between(a + LeftStub(m, start), end, b)
    ensures Between(a + LeftStub(m, start), start, RightStub(m, end) + b)
  {
    LeftKeys(a, m, b, start, end);
    RightKeys(a, m, b, start, end);
    hide Split, Sorted, LeftStub, RightStub;
  }

  lemma CutCanonical<V>(a: seq<Entry<V>>, m: seq<Entry<V>>, b: seq<Entry<V>>, start: nat, end: nat)
    requires Split(a, m, b, start, end) && start < end && Canonical(a + m + b)
    ensures Canonical(Cut(a, m, b, start, end))
  {
    CutHalves(a, m, b, start, end);
    CutSorted(a, m, b, start, end);
    var l, r := a + LeftStub(m, start), RightStub(m, end) + b;
    var es := l + r;
    forall i | 0 <= i < |es| - 1 ensures !Mergeable(es[i], es[i + 1]) {
      if i + 1 < |l| {
        assert !Mergeable(l[i], l[i + 1]);
      } else if |l| <= i {
        assert !Mergeable(r[i - |l|], r[i - |l| + 1]);
      }
    }
  }

  // ----- coalescing -----

  /** Canonical but for the neighbours of entry i. */
  ghost predicate CanonicalAround<V>(es: seq<Entry<V>>, i: nat) {
    && i < |es| && Sorted(es)
    && (forall k :: 0 <= k < |es| - 1 && k != i && k + 1 != i ==> !Mergeable(es[k], es[k + 1]))
  }

  ghost function Merge<V>(es: seq<Entry<V>>, i: nat): seq<Entry<V>>
    requires i + 1 < |es|
  {
    es[..i] + [Entry(es[i].start, es[i + 1].end, es[i].val)] + es[i + 2..]
  }

  lemma MergeAt<V>(es: seq<Entry<V>>, i: nat, p: nat)
    requires i + 1 < |es| && Sorted(es) && Mergeable(es[i], es[i + 1])
    ensures At(Merge(es, i), p) == At(es, p)
  {
    var one := [Entry(es[i].start, es[i + 1].end, es[i].val)];
    assert es == es[..i] + ([es[i], es[i + 1]] + es[i + 2..]);
    assert Merge(es, i) == es[..i] + (one + es[i + 2..]);
    AtConcat(es[..i], [es[i], es[i + 1]] + es[i + 2..], p);
    AtConcat([es[i], es[i + 1]], es[i + 2..], p);
    AtConcat(es[..i], one + es[i + 2..], p);
    AtConcat(one, es[i + 2..], p);
    assert [es[i], es[i + 1]][1..] == [es[i + 1]];
  }

  lemma MergeSorted<V>(es: seq<Entry<V>>, i: nat)
    requires i + 1 < |es| && Sorted(es)
    ensures Sorted(Merge(es, i))
  {
  }

  lemma MergeCanonical<V>(es: seq<Entry<V>>, i: nat, at: nat)
    requires CanonicalAround(es, at) && i + 1 < |es| && Mergeable(es[i], es[i + 1]) && i <= at <= i + 1
    ensures CanonicalAround(Merge(es, i), i)
  {
    MergeSorted(es, i);
    var r := Merge(es, i);
    forall k | 0 <= k < |r| - 1 && k != i && k + 1 != i ensures !Mergeable(r[k], r[k + 1]) {
      if k < i {
        assert !Mergeable(es[k], es[k + 1]);
      } else {
        assert !Mergeable(es[k + 1], es[k + 2]);
      }
    }
  }

  /** The right neighbours of a merged entry were not mergeable with each other, so neither is the result. */
  lemma RightMerged<V>(es: seq<Entry<V>>, it: nat)
    requires CanonicalAround(es, it) && it + 1 < |es| && Mergeable(es[it], es[it + 1])
    ensures it + 1 < |Merge(es, it)| ==> !Mergeable(Merge(es, it)[it], Merge(es, it)[it + 1])
  {
    if it + 2 < |es| {
      assert !Mergeable(es[it + 1], es[it + 2]);
    }
  }

  lemma LeftMerged<V>(es: seq<Entry<V>>, it: nat)
    requires CanonicalAround(es, it) && 0 < it && Mergeable(es[it - 1], es[it])
    requires it + 1 < |es| ==> !Mergeable(es[it], es[it + 1])
    ensures Canonical(Merge(es, it - 1))
  {
    MergeCanonical(es, it - 1, it);
    var r := Merge(es, it - 1);
    if it > 1 {
      assert !Mergeable(es[it - 2], es[it - 1]);
    }
    forall k | 0 <= k < |r| - 1 ensures !Mergeable(r[k], r[k + 1]) {
      if k + 1 == it - 1 {
        assert !Mergeable(es[k], es[k + 1]);
      } else if k == it - 1 {
        assert !Mergeable(es[it], es[it + 1]);
      }
    }
  }

  lemma NothingToMerge<V>(es: seq<Entry<V>>, it: nat)
    requires it < |es| && CanonicalAround(es, it)
    requires it + 1 < |es| ==> !Mergeable(es[it], es[it + 1])
    requires it > 0 ==> !Mergeable(es[it - 1], es[it])
    ensures Canonical(es)
  {
  }

  /** After an insertion between the halves of a cut, only the new entry can be mergeable. */
  lemma InsertedAround<V>(l: seq<Entry<V>>, n: Entry<V>, r: seq<Entry<V>>)
    requires Canonical(l) && Canonical(r) && n.start < n.end
    requires forall i :: 0 <= i < |l| ==> l[i].end <= n.start
    requires forall i :: 0 <= i < |r| ==> n.end <= r[i].start
    ensures CanonicalAround(l + [n] + r, |l|)
  {
    var es := l + [n] + r;
    forall k | 0 <= k < |es| - 1 && k != |l| && k + 1 != |l| ensures !Mergeable(es[k], es[k + 1]) {
      if k < |l| {
        assert !Mergeable(l[k], l[k + 1]);
      } else {
        assert !Mergeable(r[k - |l| - 1], r[k - |l|]);
      }
    }
  }

  lemma InsertedAt<V>(l: seq<Entry<V>>, n: Entry<V>, r: seq<Entry<V>>, p: nat)
    requires forall i :: 0 <= i < |l| ==> l[i].end <= n.start
    ensures At(l + [n] + r, p) == if Covers(n, p) then Some(n.val) else At(l + r, p)
  {
    AtConcat(l, r, p);
    AtConcat(l, [n], p);
    AtConcat(l + [n], r, p);
    if Covers(n, p) {
      AtNone(l, p);
    }
  }

  // ----- gaps -----

  ghost predicate InGap(g: Gap, p: nat) { g.start <= p < g.end }

  ghost predicate InSomeGap(gs: seq<Gap>, p: nat) { exists i :: 0 <= i < |gs| && InGap(gs[i], p) }

  /** gs are the maximal unmapped stretches of [start, end), in order. */
  ghost predicate GapsOf<V>(gs: seq<Gap>, es: seq<Entry<V>>, start: nat, end: nat) {
    && (forall i :: 0 <= i < |gs| ==> start <= gs[i].start < gs[i].end <= end)
    && (forall i, j :: 0 <= i < j < |gs| ==> gs[i].end <= gs[j].start)
    && (forall p: nat :: start <= p < end ==> (At(es, p).None? <==> InSomeGap(gs, p)))
    && (forall i :: 0 <= i < |gs| && gs[i].end < end ==> At(es, gs[i].end).Some?)
  }

  /** The state of the gap scan: the gaps below cursor are known, entries from `it` on lie ahead. */
  ghost predicate GapScan<V>(gs: seq<Gap>, es: seq<Entry<V>>, start: nat, end: nat, cursor: nat, it: nat) {
    && Sorted(es) && it <= |es| && start < end && start <= cursor
    && (forall j :: 0 <= j < it ==> es[j].end <= cursor)
    && (forall j :: it <= j < |es| ==> cursor < es[j].end)
    && (it < |es| ==> cursor == start || cursor <= es[it].start)
    && (forall i :: 0 <= i < |gs| ==> gs[i].end < cursor)
    && GapsOf(gs, es, start, if cursor < end then cursor else end)
  }

  lemma UnmappedBetween<V>(es: seq<Entry<V>>, it: nat, p: nat)
    requires Sorted(es) && it <= |es|
    requires forall j :: 0 <= j < it ==> es[j].end <= p
    requires it < |es| ==> p < es[it].start
    ensures At(es, p) == None
  {
    AtNone(es, p);
  }

  lemma InGapAppend(gs: seq<Gap>, g: Gap, p: nat)
    ensures InSomeGap(gs + [g], p) <==> InSomeGap(gs, p) || InGap(g, p)
  {
    var t := gs + [g];
    if InSomeGap(gs, p) {
      var i :| 0 <= i < |gs| && InGap(gs[i], p);
      assert InGap(t[i], p);
    }
    if InGap(g, p) {
      assert InGap(t[|gs|], p);
    }
  }

  /** A gap up to `next` and then mapped points extend the known stretch from cursor to hi. */
  lemma GapsExtend<V>(gs: seq<Gap>, es: seq<Entry<V>>, start: nat, cursor: nat, next: nat, hi: nat)
    requires start <= cursor <= next <= hi && GapsOf(gs, es, start, cursor)
    requires forall i :: 0 <= i < |gs| ==> gs[i].end < cursor
    requires forall p: nat :: cursor <= p < next ==> At(es, p).None?
    requires forall p: nat :: next <= p < hi ==> At(es, p).Some?
    ensures GapsOf(if cursor < next then gs + [Gap(cursor, next)] else gs, es, start, hi)
  {
    var g := Gap(cursor, next);
    var r := if cursor < next then gs + [g] else gs;
    forall p: nat | start <= p < hi ensures At(es, p).None? <==> InSomeGap(r, p) {
      InGapAppend(gs, g, p);
    }
  }

  lemma GapsStep<V>(gs: seq<Gap>, es: seq<Entry<V>>, start: nat, end: nat, cursor: nat, it: nat)
    requires GapScan(gs, es, start, end, cursor, it) && it < |es| && es[it].start < end
    ensures GapScan(if es[it].start > cursor then gs + [Gap(cursor, es[it].start)] else gs,
                    es, start, end, es[it].end, it + 1)
  {
    hide At, GapsOf;
    var next := if es[it].start > cursor then es[it].start else cursor;
    var hi := if es[it].end < end then es[it].end else end;
    forall p: nat | cursor <= p < next ensures At(es, p).None? {
      UnmappedBetween(es, it, p);
    }
    forall p: nat | next <= p < hi ensures At(es, p).Some? {
      AtSome(es, it, p);
    }
    GapsExtend(gs, es, start, cursor, next, hi);
  }

  lemma GapsDone<V>(gs: seq<Gap>, es: seq<Entry<V>>, start: nat, end: nat, cursor: nat, it: nat)
    requires GapScan(gs, es, start, end, cursor, it) && (it < |es| ==> end <= es[it].start)
    ensures GapsOf(if cursor < end then gs + [Gap(cursor, end)] else gs, es, start, end)
  {
    if cursor < end {
      forall p: nat | cursor <= p < end ensures At(es, p).None? {
        UnmappedBetween(es, it, p);
      }
      GapsExtend(gs, es, start, cursor, end, end);
    }
  }

  class RangeMap<V(==)> {
    var entries: seq<Entry<V>>

    ghost predicate Valid()
      reads this
    {
      Canonical(entries)
    }

    constructor ()
      ensures Valid() && entries == []
    {
      entries := [];
    }

    method Clear()
      modifies this
      ensures Valid() && entries == []
    {
      entries := [];
    }

    /** std::map::lower_bound: the first entry whose key is not below k. */
    static function LowerBound(es: seq<Entry<V>>, k: nat): (i: nat)
      ensures i <= |es|
      ensures forall j :: 0 <= j < i ==> es[j].start < k
      ensures i < |es| ==> k <= es[i].start
    {
      if es == [] || k <= es[0].start then 0 else
        var i := LowerBound(es[1..], k) + 1;
        assert forall j :: 1 <= j < i ==> es[j] == es[1..][j - 1];
        i
    }

    /** The first entry that could overlap a range starting at start. */
    function OverlapBegin(start: nat): (it: nat)
      requires Valid()
      reads this
      ensures it <= |entries|
      ensures forall j :: 0 <= j < it ==> entries[j].end <= start
      ensures forall j :: it <= j < |entries| ==> start < entries[j].end
    {
      var it := LowerBound(entries, start);
      if it > 0 && start < entries[it - 1].end then it - 1 else it
    }

    method Find(key: nat) returns (r: Option<Entry<V>>)
      requires Valid()
      ensures r.None? <==> At(entries, key).None?
      ensures r.Some? ==> r.value in entries && Covers(r.value, key) && At(entries, key) == Some(r.value.val)
    {
      var it := LowerBound(entries, key + 1);
      if it == 0 {
        AtNone(entries, key);
        return None;
      }
      it := it - 1;
      if key < entries[it].end {
        AtSome(entries, it, key);
        return Some(entries[it]);
      }
      AtNone(entries, key);
      return None;
    }

    /** std::map::insert: no effect when the key is present; returns the position of the key. */
    method MapInsert(e: Entry<V>) returns (it: nat)
      modifies this
      ensures it <= old(|entries|) && it == LowerBound(old(entries), e.start)
      ensures entries == if it < old(|entries|) && old(entries)[it].start == e.start then old(entries)
                         else old(entries)[..it] + [e] + old(entries)[it..]
    {
      it := LowerBound(entries, e.start);
      if it == |entries| || entries[it].start != e.start {
        entries := entries[..it] + [e] + entries[it..];
      }
    }

    /** Inserting a key that falls between x and y. */
    method InsertBetween(e: Entry<V>, ghost x: seq<Entry<V>>, ghost y: seq<Entry<V>>) returns (it: nat)
      requires entries == x + y && Between(x, e.start, y)
      modifies this
      ensures it == |x| && entries == x + [e] + y
    {
      assert y != [] ==> entries[|x|] == y[0];
      assert forall i :: 0 <= i < |x| ==> entries[i] == x[i];
      it := MapInsert(e);
    }

    /** One turn of the erase loop. */
    method EraseNext(it: nat, start: nat, end: nat, left0: Option<Entry<V>>, right0: Option<Entry<V>>,
                     ghost a: seq<Entry<V>>, ghost m: seq<Entry<V>>, ghost b: seq<Entry<V>>)
      returns (left: Option<Entry<V>>, right: Option<Entry<V>>)
      requires entries == a + b && it == |a| && b != [] && b[0].start < end && Scanned(a, m, b, start, end)
      requires AsSeq(left0) == LeftStub(m, start) && AsSeq(right0) == RightStub(m, end)
      modifies this
      ensures entries == a + b[1..] && Scanned(a, m + [b[0]], b[1..], start, end)
      ensures a + m + b == a + (m + [b[0]]) + b[1..]
      ensures AsSeq(left) == LeftStub(m + [b[0]], start) && AsSeq(right) == RightStub(m + [b[0]], end)
    {
      hide Scanned, LeftStub, RightStub;
      EraseStep(a, m, b, start, end);
      EraseFirst(a, b);
      left, right := left0, right0;
      var e := entries[it];
      if e.start < start {
        left := Some(Entry(e.start, start, e.val));
      }
      if e.end > end {
        right := Some(Entry(end, e.end, e.val));
      }
      entries := entries[..it] + entries[it + 1..];
    }

    /** The erase loop of insert and remove: drops every entry that overlaps [start, end) and
        remembers what sticks out on either side. */
    method EraseOverlapping(start: nat, end: nat)
      returns (left: Option<Entry<V>>, right: Option<Entry<V>>,
               ghost a: seq<Entry<V>>, ghost m: seq<Entry<V>>, ghost b: seq<Entry<V>>)
      requires Valid() && start < end
      modifies this
      ensures old(entries) == a + m + b && Split(a, m, b, start, end)
      ensures entries == a + b
      ensures AsSeq(left) == LeftStub(m, start)
      ensures AsSeq(right) == RightStub(m, end)
    {
      var it := OverlapBegin(start);
      EraseStart(entries, it, start, end);
      a := entries[..it];
      left, right, m, b := EraseFrom(it, start, end, a, entries[it..]);
    }

    method EraseFrom(it: nat, start: nat, end: nat, ghost a: seq<Entry<V>>, ghost b0: seq<Entry<V>>)
      returns (left: Option<Entry<V>>, right: Option<Entry<V>>, ghost m: seq<Entry<V>>, ghost b: seq<Entry<V>>)
      requires entries == a + b0 && it == |a| && Scanned(a, [], b0, start, end)
      modifies this
      ensures old(entries) == a + m + b && Split(a, m, b, start, end)
      ensures entries == a + b
      ensures AsSeq(left) == LeftStub(m, start) && AsSeq(right) == RightStub(m, end)
    {
      left, right, m, b := None, None, [], b0;
      assert AsSeq(left) == LeftStub(m, start) && AsSeq(right) == RightStub(m, end);
      assert a + m + b == a + b;
      hide Split, Scanned, LeftStub, RightStub;
      while it < |entries| && entries[it].start < end
        invariant old(entries) == a + m + b && entries == a + b
        invariant Scanned(a, m, b, start, end)
        invariant AsSeq(left) == LeftStub(m, start) && AsSeq(right) == RightStub(m, end)
        decreases |b|
      {
        left, right := EraseNext(it, start, end, left, right, a, m, b);
        m, b := m + [b[0]], b[1..];
      }
      EraseDone(a, m, b, start, end);
    }

    /** What insert and remove do after the erase loop: put the stubs back. */
    method InsertStubs(left: Option<Entry<V>>, right: Option<Entry<V>>, start: nat, end: nat,
                       ghost a: seq<Entry<V>>, ghost m: seq<Entry<V>>, ghost b: seq<Entry<V>>)
      requires start < end && Split(a, m, b, start, end) && entries == a + b
      requires AsSeq(left) == LeftStub(m, start) && AsSeq(right) == RightStub(m, end)
      modifies this
      ensures entries == Cut(a, m, b, start, end)
    {
      StubKeys(a, m, b, start, end);
      ghost var l, r := LeftStub(m, start), RightStub(m, end);
      if left.Some? {
        var _ := InsertBetween(left.value, a, b);
      }
      assert entries == (a + l) + b;
      if right.Some? {
        var _ := InsertBetween(right.value, a + l, b);
      }
      assert entries == (a + l) + (r + b);
    }

    method Remove(start: nat, end: nat)
      requires Valid()
      modifies this
      ensures Valid()
      ensures forall p: nat :: At(entries, p) == if start <= p < end then None else At(old(entries), p)
    {
      if start >= end {
        return;
      }
      var left, right, a, m, b := EraseOverlapping(start, end);
      InsertStubs(left, right, start, end, a, m, b);
      CutCanonical(a, m, b, start, end);
      forall p: nat ensures At(entries, p) == if start <= p < end then None else At(a + m + b, p) {
        CutMeaning(a, m, b, start, end, p);
      }
    }

    method Insert(start: nat, end: nat, val: V)
      requires Valid()
      modifies this
      ensures Valid()
      ensures forall p: nat :: At(entries, p) == if start <= p < end then Some(val) else At(old(entries), p)
    {
      if start >= end {
        return;
      }
      var left, right, a, m, b := EraseOverlapping(start, end);
      InsertStubs(left, right, start, end, a, m, b);
      ghost var l, r, n := a + LeftStub(m, start), RightStub(m, end) + b, Entry(start, end, val);
      CutHalves(a, m, b, start, end);
      CutSorted(a, m, b, start, end);
      StubKeys(a, m, b, start, end);
      var it := InsertBetween(Entry(start, end, val), l, r);
      InsertedAround(l, n, r);
      Coalesce(it);
      forall p: nat ensures At(entries, p) == if start <= p < end then Some(val) else At(a + m + b, p) {
        InsertedAt(l, n, r, p);
        CutMeaning(a, m, b, start, end, p);
      }
    }

    /** Merges entry i with its right neighbour, around the position `at` of a fresh insertion. */
    method MergeRight(i: nat, ghost at: nat)
      requires CanonicalAround(entries, at) && i + 1 < |entries| && Mergeable(entries[i], entries[i + 1])
      requires i <= at <= i + 1
      modifies this
      ensures entries == Merge(old(entries), i) && i < |entries| && CanonicalAround(entries, i)
      ensures forall p: nat :: At(entries, p) == At(old(entries), p)
    {
      MergeCanonical(entries, i, at);
      forall p: nat ensures At(Merge(entries, i), p) == At(entries, p) {
        MergeAt(entries, i, p);
      }
      entries := entries[..i] + [entries[i].(end := entries[i + 1].end)] + entries[i + 2..];
    }

    /** Merges entry `it` with its right and then its left neighbour where they touch with one value. */
    method Coalesce(it: nat)
      requires CanonicalAround(entries, it)
      modifies this
      ensures Valid()
      ensures forall p: nat :: At(entries, p) == At(old(entries), p)
    {
      assert it < |entries|;
      hide At, Canonical, CanonicalAround, Sorted, Merge;
      if it + 1 < |entries| && entries[it].end == entries[it + 1].start && entries[it].val == entries[it + 1].val {
        MergeRight(it, it);
        RightMerged(old(entries), it);
      }
      assert it + 1 < |entries| ==> !Mergeable(entries[it], entries[it + 1]);
      if it > 0 && entries[it - 1].end == entries[it].start && entries[it - 1].val == entries[it].val {
        LeftMerged(entries, it);
        MergeRight(it - 1, it);
      } else {
        NothingToMerge(entries, it);
      }
    }

    method Overlaps(start: nat, end: nat) returns (r: bool)
      requires Valid()
      ensures r <==> exists p: nat :: start <= p < end && At(entries, p).Some?
    {
      if start >= end {
        return false;
      }
      var it := OverlapBegin(start);
      r := it < |entries| && entries[it].start < end;
      if r {
        var p := if entries[it].start < start then start else entries[it].start;
        AtSome(entries, it, p);
      } else {
        forall p: nat | start <= p < end ensures At(entries, p).None? {
          forall i | 0 <= i < |entries| ensures !Covers(entries[i], p) {
            assert it <= i ==> entries[it].start <= entries[i].start;
          }
          AtNone(entries, p);
        }
      }
    }

    /** get_overlapping: exactly the entries that overlap the range, in order; a and b are the entries
        before and after them. */
    method GetOverlapping(start: nat, end: nat)
      returns (result: seq<Entry<V>>, ghost a: seq<Entry<V>>, ghost b: seq<Entry<V>>)
      requires Valid()
      ensures entries == a + result + b
      ensures if start < end then Split(a, result, b, start, end) else result == []
      ensures Sorted(result)
      ensures start < end ==> forall e :: e in result <==> e in entries && e.start < end && start < e.end
    {
      result, a, b := CollectOverlapping(start, end);
      hide Split, Sorted, Valid;
      if start < end {
        SplitMembers(a, result, b, start, end);
      } else {
        NothingSorted<V>();
      }
    }

    method CollectOverlapping(start: nat, end: nat)
      returns (result: seq<Entry<V>>, ghost a: seq<Entry<V>>, ghost b: seq<Entry<V>>)
      requires Valid()
      ensures entries == a + result + b
      ensures if start < end then Split(a, result, b, start, end) else result == []
    {
      result := [];
      if start >= end {
        a, b := [], entries;
        return;
      }
      var it := OverlapBegin(start);
      EraseStart(entries, it, start, end);
      hide Valid, Canonical, Split, Scanned, LowerBound, LeftStub, RightStub, OverlapBegin;
      a, b := entries[..it], entries[it..];
      while it < |entries| && entries[it].start < end
        invariant entries == a + result + b && it == |a + result|
        invariant Scanned(a, result, b, start, end)
        decreases |b|
      {
        EraseFirst(a + result, b);
        EraseStep(a, result, b, start, end);
        result := result + [entries[it]];
        b := b[1..];
        it := it + 1;
      }
      EraseDone(a, result, b, start, end);
    }

    /** The unmapped stretches of [start, end), in order. */
    method GetGaps(start: nat, end: nat) returns (result: seq<Gap>)
      requires Valid()
      ensures GapsOf(result, entries, start, end)
    {
      result := [];
      if start >= end {
        return;
      }
      var cursor: nat := start;
      var it := OverlapBegin(start);
      while it < |entries| && entries[it].start < end
        invariant GapScan(result, entries, start, end, cursor, it)
      {
        GapsStep(result, entries, start, end, cursor, it);
        if entries[it].start > cursor {
          result := result + [Gap(cursor, entries[it].start)];
        }
        if entries[it].end > cursor {
          cursor := entries[it].end;
        }
        it := it + 1;
      }
      GapsDone(result, entries, start, end, cursor, it);
      if cursor < end {
        result := result + [Gap(cursor, end)];
      }
    }
  }
}
