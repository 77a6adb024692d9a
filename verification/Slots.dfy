/** A bit vector all of whose allocations have one size: it is a row of slots that are taken or free,
    followed by less than a slot of free chunks, and first fit hands out the first free slot. */
module Slots {
  import opened Division
  import opened ExtAllocs

  ghost function Rep(val: bool, n: nat): (r: seq<bool>)
    ensures |r| == n && forall i :: 0 <= i < n ==> r[i] == val
  {
    seq(n, i => val)
  }

  /** The chunks of a row of slots of k chunks each. */
  ghost function Expand(live: seq<bool>, k: nat): seq<bool>
    decreases |live|
  {
    if live == [] then [] else Rep(live[0], k) + Expand(live[1..], k)
  }

  ghost predicate Uniform(bits: seq<bool>, live: seq<bool>, k: nat) {
    var e := Expand(live, k);
    && 0 < k && |e| <= |bits| < |e| + k
    && bits[..|e|] == e && forall i :: |e| <= i < |bits| ==> !bits[i]
  }

  /** The first free slot, or their number. */
  ghost function FirstFree(live: seq<bool>): (q: nat)
    ensures q <= |live| && (q < |live| ==> !live[q])
    ensures forall j :: 0 <= j < q ==> live[j]
    decreases |live|
  {
    if live == [] || !live[0] then 0 else 1 + FirstFree(live[1..])
  }

  ghost function Count(live: seq<bool>): (n: nat)
    ensures n <= |live|
    decreases |live|
  {
    if live == [] then 0 else (if live[0] then 1 else 0) + Count(live[1..])
  }

  lemma {:induction false} CountFull(live: seq<bool>)
    ensures Count(live) == |live| <==> FirstFree(live) == |live|
    decreases |live|
  {
    if live != [] {
      CountFull(live[1..]);
    }
  }

  lemma {:induction false} CountUpdate(live: seq<bool>, q: nat, val: bool)
    requires q < |live| && live[q] != val
    ensures Count(live[q := val]) == Count(live) + if val then 1 else -1
    decreases |live|
  {
    if q == 0 {
      assert live[0 := val][1..] == live[1..];
    } else {
      assert live[q := val][1..] == live[1..][q - 1 := val];
      CountUpdate(live[1..], q - 1, val);
    }
  }

  lemma {:induction false} ExpandLength(live: seq<bool>, k: nat)
    ensures |Expand(live, k)| == |live| * k
    decreases |live|
  {
    if live != [] {
      ExpandLength(live[1..], k);
      assert |live| * k == k + (|live| - 1) * k;
    }
  }

  /** Without its first slot a uniform vector is still uniform. */
  lemma UniformTail(bits: seq<bool>, live: seq<bool>, k: nat)
    requires Uniform(bits, live, k) && live != []
    ensures k <= |bits| && Uniform(bits[k..], live[1..], k)
    ensures forall i :: 0 <= i < k ==> bits[i] == live[0]
  {
    var e := Expand(live, k);
    assert e == Rep(live[0], k) + Expand(live[1..], k);
    assert forall i :: 0 <= i < |e| ==> bits[i] == e[i] by {
      assert forall i :: 0 <= i < |e| ==> bits[..|e|][i] == bits[i];
    }
  }

  /** Runs of a vector whose first k chunks are taken are those of the rest. */
  lemma ShiftRun(bits: seq<bool>, k: nat, j: nat)
    requires 0 < k <= |bits| && forall i :: 0 <= i < k ==> bits[i]
    ensures FreeRun(bits, j, k) <==> j >= k && FreeRun(bits[k..], j - k, k)
  {
    if j < k {
      assert bits[j];
    } else if j + k <= |bits| {
      assert forall i :: j <= i < j + k ==> bits[i] == bits[k..][i - k];
      assert forall i :: j - k <= i < j ==> bits[i + k] == bits[k..][i];
    }
  }

  lemma ShiftFirst(bits: seq<bool>, k: nat, at: nat)
    requires 0 < k <= |bits| && (forall i :: 0 <= i < k ==> bits[i]) && FirstRun(bits[k..], at, k)
    ensures FirstRun(bits, k + at, k)
  {
    hide FreeRun;
    ShiftRun(bits, k, k + at);
    forall j | 0 <= j < k + at ensures !FreeRun(bits, j, k) {
      ShiftRun(bits, k, j);
    }
  }

  lemma ShiftNone(bits: seq<bool>, k: nat)
    requires 0 < k <= |bits| && (forall i :: 0 <= i < k ==> bits[i]) && forall j: nat :: !FreeRun(bits[k..], j, k)
    ensures forall j: nat :: !FreeRun(bits, j, k)
  {
    hide FreeRun;
    forall j: nat ensures !FreeRun(bits, j, k) {
      ShiftRun(bits, k, j);
    }
  }

  lemma OneMore(q: nat, k: nat)
    ensures (1 + q) * k == k + q * k && q * k >= 0
  {
  }

  lemma FreeAtStart(bits: seq<bool>, k: nat)
    requires k <= |bits| && forall i :: 0 <= i < k ==> !bits[i]
    ensures FirstRun(bits, 0, k)
  {
  }

  /** First fit finds exactly the first free slot. */
  lemma {:induction false} FirstFitIsFirstFree(bits: seq<bool>, live: seq<bool>, k: nat)
    requires Uniform(bits, live, k)
    ensures FirstFree(live) < |live| ==> FirstRun(bits, FirstFree(live) * k, k)
    ensures FirstFree(live) == |live| ==> forall j: nat :: !FreeRun(bits, j, k)
    decreases |live|
  {
    if live == [] {
      assert forall j: nat :: !FreeRun(bits, j, k);
    } else {
      UniformTail(bits, live, k);
      assert k > 0;
      hide Uniform, FreeRun, FirstRun;
      if live[0] {
        FirstFitIsFirstFree(bits[k..], live[1..], k);
        OneMore(FirstFree(live[1..]), k);
        if FirstFree(live) < |live| {
          ShiftFirst(bits, k, FirstFree(live[1..]) * k);
        } else {
          ShiftNone(bits, k);
        }
      } else {
        FreeAtStart(bits, k);
      }
    }
  }

  lemma FirstRunUnique(bits: seq<bool>, i: nat, j: nat, k: nat)
    requires FirstRun(bits, i, k) && FirstRun(bits, j, k)
    ensures i == j
  {
  }

  /** Writing the chunks of one slot writes the slot. */
  lemma {:induction false} FillSlot(bits: seq<bool>, live: seq<bool>, k: nat, q: nat, val: bool)
    requires Uniform(bits, live, k) && q < |live|
    ensures q * k + k <= |bits| && Uniform(Filled(bits, q * k, k, val), live[q := val], k)
    decreases |live|
  {
    UniformTail(bits, live, k);
    if q == 0 {
      var r := Filled(bits, 0, k, val);
      assert live[0 := val][1..] == live[1..];
      assert r[k..] == bits[k..];
      UniformCons(r, live[0 := val], k);
    } else {
      FillSlot(bits[k..], live[1..], k, q - 1, val);
      assert q * k == k + (q - 1) * k;
      var r := Filled(bits, q * k, k, val);
      assert r[k..] == Filled(bits[k..], (q - 1) * k, k, val);
      assert live[q := val][1..] == live[1..][q - 1 := val];
      UniformCons(r, live[q := val], k);
    }
  }

  lemma UniformCons(bits: seq<bool>, live: seq<bool>, k: nat)
    requires live != [] && k <= |bits| && Uniform(bits[k..], live[1..], k)
    requires forall i :: 0 <= i < k ==> bits[i] == live[0]
    ensures Uniform(bits, live, k)
  {
    var e, f := Expand(live, k), Expand(live[1..], k);
    assert e == Rep(live[0], k) + f;
    assert forall i :: 0 <= i < |f| ==> bits[k..][..|f|][i] == bits[k + i];
    assert bits[..|e|] == e;
    forall i | |e| <= i < |bits| ensures !bits[i] {
      assert bits[i] == bits[k..][i - k];
    }
  }

  /** A cleared vector: as many free slots as fit. */
  lemma {:induction false} UniformFree(bits: seq<bool>, n: nat, k: nat)
    requires 0 < k && n * k <= |bits| < (n + 1) * k && forall i :: 0 <= i < |bits| ==> !bits[i]
    ensures Uniform(bits, Rep(false, n), k)
    decreases n
  {
    if n == 0 {
      assert Expand(Rep(false, 0), k) == [];
    } else {
      assert n * k == k + (n - 1) * k && (n + 1) * k == k + n * k;
      MulNonNeg(n - 1, k);
      UniformFree(bits[k..], n - 1, k);
      assert Rep(false, n)[1..] == Rep(false, n - 1);
      UniformCons(bits, Rep(false, n), k);
    }
  }

  lemma MulNonNeg(a: nat, b: nat)
    ensures a * b >= 0
  {
  }

  lemma FreeFits(size: nat, k: nat)
    requires k > 0
    ensures size / k * k <= size < (size / k + 1) * k
  {
    assert size == size / k * k + size % k;
  }

  // ----- several rows -----

  ghost function Total(rows: seq<seq<bool>>): nat
    decreases |rows|
  {
    if rows == [] then 0 else Count(rows[0]) + Total(rows[1..])
  }

  ghost function Capacity(rows: seq<seq<bool>>): nat
    decreases |rows|
  {
    if rows == [] then 0 else |rows[0]| + Capacity(rows[1..])
  }

  ghost predicate AllFull(rows: seq<seq<bool>>) {
    forall i :: 0 <= i < |rows| ==> FirstFree(rows[i]) == |rows[i]|
  }

  /** Some row has a free slot exactly when fewer slots are live than there are. */
  lemma {:induction false} FullIffTotal(rows: seq<seq<bool>>)
    ensures Total(rows) <= Capacity(rows)
    ensures AllFull(rows) <==> Total(rows) == Capacity(rows)
    decreases |rows|
  {
    if rows != [] {
      CountFull(rows[0]);
      FullIffTotal(rows[1..]);
      assert AllFull(rows) <==> FirstFree(rows[0]) == |rows[0]| && AllFull(rows[1..]) by {
        assert forall i :: 0 <= i < |rows[1..]| ==> rows[1..][i] == rows[i + 1];
      }
    }
  }

  lemma {:induction false} TotalUpdate(rows: seq<seq<bool>>, i: nat, q: nat, val: bool)
    requires i < |rows| && q < |rows[i]| && rows[i][q] != val
    ensures Total(rows[i := rows[i][q := val]]) == Total(rows) + if val then 1 else -1
    ensures Capacity(rows[i := rows[i][q := val]]) == Capacity(rows)
    decreases |rows|
  {
    var now := rows[i := rows[i][q := val]];
    if i == 0 {
      CountUpdate(rows[0], q, val);
      assert now[1..] == rows[1..];
    } else {
      assert now[1..] == rows[1..][i - 1 := rows[1..][i - 1][q := val]];
      TotalUpdate(rows[1..], i - 1, q, val);
    }
  }

  lemma {:induction false} CapacityAppend(rows: seq<seq<bool>>, row: seq<bool>)
    ensures Capacity(rows + [row]) == Capacity(rows) + |row|
    ensures Total(rows + [row]) == Total(rows) + Count(row)
    decreases |rows|
  {
    if rows == [] {
      assert [row][1..] == [];
    } else {
      assert (rows + [row])[1..] == rows[1..] + [row];
      CapacityAppend(rows[1..], row);
    }
  }

  lemma {:induction false} CountFree(n: nat)
    ensures Count(Rep(false, n)) == 0
    decreases n
  {
    if n > 0 {
      assert Rep(false, n)[1..] == Rep(false, n - 1);
      CountFree(n - 1);
    }
  }
}
