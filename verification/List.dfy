/** linux/list.h and linux/list.c: the intrusive circular list. The head points at the last element. */
module Lists {

  /** x dropped from s; s itself when x is not there. */
  function Without<T(==)>(s: seq<T>, x: T): seq<T> {
    if s == [] then []
    else if s[0] == x then s[1..]
    else [s[0]] + Without(s[1..], x)
  }

  ghost predicate Distinct<T>(s: seq<T>) { forall i, j :: 0 <= i < j < |s| ==> s[i] != s[j] }

  lemma {:induction false} WithoutAt<T>(s: seq<T>, k: nat)
    requires k < |s| && Distinct(s)
    ensures Without(s, s[k]) == s[..k] + s[k + 1..]
  {
    if k > 0 {
      WithoutAt(s[1..], k - 1);
      assert s[1..][..k - 1] == s[1..k];
      assert s[..k] == [s[0]] + s[1..k];
    }
  }

  lemma {:induction false} WithoutAbsent<T>(s: seq<T>, x: T)
    requires x !in s
    ensures Without(s, x) == s
  {
    if s != [] {
      WithoutAbsent(s[1..], x);
    }
  }

  /** Removal leaves the rest, in order and distinct. */
  lemma WithoutDistinct<T>(s: seq<T>, x: T)
    requires Distinct(s)
    ensures Distinct(Without(s, x)) && x !in Without(s, x)
    ensures forall y :: y in Without(s, x) <==> y in s && y != x
    ensures |Without(s, x)| == if x in s then |s| - 1 else |s|
  {
    if x in s {
      var k :| 0 <= k < |s| && s[k] == x;
      WithoutAt(s, k);
    } else {
      WithoutAbsent(s, x);
    }
  }

  class Node {
    var next: Node
    var prev: Node

    /** list_init: a ring of one. */
    constructor ()
      ensures Single()
    {
      next, prev := this, this;
    }

    ghost predicate Single()
      reads this
    {
      next == this && prev == this
    }
  }

  ghost function After(i: nat, n: nat): nat { if i + 1 < n then i + 1 else 0 }

  ghost function Before(i: nat, n: nat): nat
    requires n > 0
  {
    if i > 0 then i - 1 else n - 1
  }

  ghost predicate LinkedAt(es: seq<Node>, i: nat)
    requires i < |es|
    reads es
  {
    es[i].next == es[After(i, |es|)] && es[i].prev == es[Before(i, |es|)]
  }

  /** The links of the nodes run through es in a circle. */
  ghost predicate Ring(es: seq<Node>)
    reads es
  {
    forall i :: 0 <= i < |es| ==> LinkedAt(es, i)
  }

  class List {
    /** The list head: the last element, or null. */
    var head: Node?
    ghost var elems: seq<Node>

    ghost predicate Valid()
      reads this, elems
    {
      && Distinct(elems) && Ring(elems)
      && head == if elems == [] then null else elems[|elems| - 1]
    }

    constructor ()
      ensures Valid() && elems == []
    {
      head, elems := null, [];
    }

    method First() returns (first: Node?)
      requires Valid()
      ensures first == if elems == [] then null else elems[0]
    {
      assert elems != [] ==> LinkedAt(elems, |elems| - 1);
      first := null;
      if head != null {
        first := head.next;
      }
    }

    method Next(e: Node, ghost i: nat) returns (next: Node?)
      requires Valid() && i < |elems| && elems[i] == e
      ensures next == if i + 1 < |elems| then elems[i + 1] else null
    {
      assert LinkedAt(elems, i);
      next := null;
      if e != head {
        next := e.next;
      }
    }

    /** Walking with First and Next visits the elements in order, once each. */
    method Enumerate() returns (r: seq<Node>)
      requires Valid()
      ensures r == elems
    {
      r := [];
      var e := First();
      while e != null
        invariant |r| <= |elems| && r == elems[..|r|]
        invariant e == if |r| < |elems| then elems[|r|] else null
        decreases |elems| - |r|
      {
        var next := Next(e, |r|);
        r := r + [e];
        e := next;
      }
    }

    /** Splices the single element succ in between the last element, elem, and the first. */
    method SpliceAfter(elem: Node, succ: Node)
      requires Valid() && head == elem && succ.Single() && succ !in elems
      modifies elems, succ
      ensures Ring([succ] + elems)
    {
      ghost var n := |elems|;
      assert LinkedAt(elems, 0) && LinkedAt(elems, n - 1);
      var tmp1 := elem.next;
      var tmp2 := succ.prev;
      elem.next := succ;
      succ.prev := elem;
      tmp2.next := tmp1;
      tmp1.prev := tmp2;
      forall i | 0 <= i < n + 1 ensures LinkedAt([succ] + elems, i) {
        assert i > 0 ==> old(LinkedAt(elems, i - 1));
      }
    }

    method MakeFirst(elem: Node?)
      requires Valid()
      requires elem != null ==> elem.Single() && elem !in elems
      modifies this, elems, elem
      ensures Valid()
      ensures elems == if elem == null then old(elems) else [elem] + old(elems)
    {
      if elem != null {
        if head == null {
          head := elem.prev;
        } else {
          SpliceAfter(head, elem);
        }
        elems := [elem] + elems;
      }
    }

    /** Unlinks elem; an element already unlinked stays as it is and the list is unchanged. */
    method Remove(elem: Node)
      requires Valid()
      requires elem !in elems ==> elem.Single()
      modifies this, elems, elem
      ensures Valid() && elem.Single()
      ensures elems == Without(old(elems), elem)
    {
      hide Ring, LinkedAt, Bypassed, Without;
      ghost var es, k := elems, |elems|;
      if elem in es {
        k :| 0 <= k < |es| && es[k] == elem;
        WithoutAt(es, k);
      } else {
        WithoutAbsent(es, elem);
      }
      UnlinkHead(elem, k);
      Unlink(es, elem, k);
      if k < |es| {
        BypassedRing(es, k);
        elems := es[..k] + es[k + 1..];
      }
    }

    /** The head moves off elem before elem is unlinked. */
    method UnlinkHead(elem: Node, ghost k: nat)
      requires Valid()
      requires if k < |elems| then elem == elems[k] else elem !in elems
      modifies this`head
      ensures k >= |elems| ==> head == old(head)
      ensures k < |elems| ==>
                head == if |elems| == 1 then null
                        else if k == |elems| - 1 then elems[k - 1] else elems[|elems| - 1]
    {
      if head == elem {
        assert LinkedAt(elems, k);
        if head.prev == head {
          head := null;
        } else {
          head := head.prev;
        }
      }
    }
  }

  ghost predicate BypassedAt(es: seq<Node>, k: nat, j: nat)
    requires j < |es| && k < |es|
    reads es
  {
    && es[j].next == es[if After(j, |es|) == k then After(k, |es|) else After(j, |es|)]
    && es[j].prev == es[if Before(j, |es|) == k then Before(k, |es|) else Before(j, |es|)]
  }

  /** The links of es after element k has been bypassed. */
  ghost predicate Bypassed(es: seq<Node>, k: nat)
    requires k < |es|
    reads es
  {
    forall j :: 0 <= j < |es| && j != k ==> BypassedAt(es, k, j)
  }

  lemma BypassedRing(es: seq<Node>, k: nat)
    requires k < |es| && Bypassed(es, k)
    ensures Ring(es[..k] + es[k + 1..])
  {
    var r := es[..k] + es[k + 1..];
    forall i | 0 <= i < |r| ensures LinkedAt(r, i) {
      assert BypassedAt(es, k, if i < k then i else i + 1);
    }
  }

  /** The four pointer writes of list_remove, on the ring es with elem at position k, or outside it. */
  method Unlink(ghost es: seq<Node>, elem: Node, ghost k: nat)
    requires Distinct(es) && Ring(es)
    requires if k < |es| then elem == es[k] else elem !in es && elem.Single()
    modifies es, elem
    ensures elem.Single()
    ensures k < |es| ==> Bypassed(es, k)
    ensures k >= |es| ==> Ring(es)
  {
    if k < |es| {
      assert LinkedAt(es, k);
    }
    elem.next.prev := elem.prev;
    elem.prev.next := elem.next;
    elem.next := elem;
    elem.prev := elem;
    if k < |es| {
      forall j | 0 <= j < |es| && j != k ensures BypassedAt(es, k, j) {
        assert old(LinkedAt(es, j));
      }
    } else {
      forall j | 0 <= j < |es| ensures LinkedAt(es, j) {
        assert old(LinkedAt(es, j));
      }
    }
  }
}
