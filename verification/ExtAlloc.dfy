/** core/extalloc.c: a first-fit allocator over a bit vector, one bit a chunk. */
module ExtAllocs {
  import opened Division

  // ----- bits -----

  function Bit(b: bv8, off: nat): bool
    requires off < 8
  {
    (b >> off) & 1 == 1
  }

  /** A byte with one bit written. */
  function WithBit(b: bv8, off: nat, val: bool): bv8
    requires off < 8
  {
    if val then b | (1 << off) else b & !(1 << off)
  }

  lemma SetBit(b: bv8, off: nat, q: nat)
    requires off < 8 && q < 8
    ensures Bit(b | (1 << off), q) == (q == off || Bit(b, q))
  {
  }

  lemma ClearBit(b: bv8, off: nat, q: nat)
    requires off < 8 && q < 8
    ensures Bit(b & !(1 << off), q) == (q != off && Bit(b, q))
  {
  }

  lemma WithBitReads(b: bv8, off: nat, val: bool, q: nat)
    requires off < 8 && q < 8
    ensures Bit(WithBit(b, off, val), q) == if q == off then val else Bit(b, q)
  {
    hide Bit;
    if val {
      SetBit(b, off, q);
    } else {
      ClearBit(b, off, q);
    }
  }

  /** Bit i of a vector of bytes, the high bit of a byte first. */
  ghost function BitOf(bytes: seq<bv8>, i: nat): bool
    requires i / 8 < |bytes|
  {
    Bit(bytes[i / 8], 7 - i % 8)
  }

  ghost function BitsOf(bytes: seq<bv8>, n: nat): (r: seq<bool>)
    requires n <= 8 * |bytes|
    ensures |r| == n && forall i :: 0 <= i < n ==> r[i] == BitOf(bytes, i)
  {
    seq(n, i requires 0 <= i < n => BitOf(bytes, i))
  }

  /** Writing bit i and nothing else. */
  lemma WriteBit(bytes: seq<bv8>, now: seq<bv8>, i: nat, val: bool, j: nat)
    requires i / 8 < |bytes| && j / 8 < |bytes|
    requires now == bytes[i / 8 := WithBit(bytes[i / 8], 7 - i % 8, val)]
    ensures BitOf(now, j) == if j == i then val else BitOf(bytes, j)
  {
    hide Bit, WithBit;
    WithBitReads(bytes[i / 8], 7 - i % 8, val, 7 - j % 8);
  }

  // ----- first fit -----

  ghost predicate FreeRun(bits: seq<bool>, at: nat, n: nat) {
    at + n <= |bits| && forall i :: at <= i < at + n ==> !bits[i]
  }

  /** The lowest run of n free chunks. */
  ghost predicate FirstRun(bits: seq<bool>, at: nat, n: nat) {
    FreeRun(bits, at, n) && forall j :: 0 <= j < at ==> !FreeRun(bits, j, n)
  }

  ghost function Filled(bits: seq<bool>, start: nat, length: nat, val: bool): (r: seq<bool>)
    requires start + length <= |bits|
    ensures |r| == |bits|
  {
    seq(|bits|, i requires 0 <= i < |bits| => if start <= i < start + length then val else bits[i])
  }

  /** The state of the scan at i: the last count chunks are free, the one before is not, and no run of
      n ends before i. */
  ghost predicate Scan(bits: seq<bool>, i: nat, count: nat, n: nat) {
    && count <= i <= |bits| && count < n
    && (forall j :: i - count <= j < i ==> !bits[j])
    && (count < i ==> bits[i - count - 1])
  }

  /** One more chunk: either a run is complete and it is the first, or none ends here. */
  lemma ScanStep(bits: seq<bool>, i: nat, count: nat, n: nat)
    requires Scan(bits, i, count, n) && i < |bits|
    requires forall k :: 0 <= k && k + n <= i ==> !FreeRun(bits, k, n)
    ensures !bits[i] && count + 1 == n ==> n <= i + 1 && FirstRun(bits, i + 1 - n, n)
    ensures bits[i] || count + 1 < n ==>
              && Scan(bits, i + 1, if bits[i] then 0 else count + 1, n)
              && forall k :: 0 <= k && k + n <= i + 1 ==> !FreeRun(bits, k, n)
  {
    if bits[i] || count + 1 < n {
      var c := if bits[i] then 0 else count + 1;
      forall k | 0 <= k && k + n <= i + 1 ensures !FreeRun(bits, k, n) {
        if k + n == i + 1 {
          assert bits[i - c];
        }
      }
    }
  }

  class ExtAlloc {
    const base: nat
    const size: nat
    const chunksize: nat
    const bitvec: array<bv8>

    ghost predicate Valid()
    {
      chunksize > 0 && base > 0 && bitvec.Length == size / 8 + 1
    }

    ghost function Bits(): (r: seq<bool>)
      requires Valid()
      reads bitvec
      ensures |r| == size
    {
      BitsOf(bitvec[..], size)
    }

    /** extalloc_new; calloc clears the vector. */
    constructor (start: nat, bytes: nat, chunksize: nat)
      requires chunksize > 0 && start % chunksize == 0 && bytes % chunksize == 0 && start >= chunksize
      ensures Valid() && fresh(bitvec)
      ensures base == start / chunksize && size == bytes / chunksize && this.chunksize == chunksize
      ensures forall i :: 0 <= i < size ==> !Bits()[i]
    {
      base, size, this.chunksize := start / chunksize, bytes / chunksize, chunksize;
      bitvec := new bv8[bytes / chunksize / 8 + 1](i => 0);
      new;
      QuotientPositive(start, chunksize);
      forall i | 0 <= i < size ensures !Bits()[i] {
        ClearByte(7 - i % 8);
      }
    }

    /** bit. */
    method BitAt(i: nat) returns (r: bool)
      requires Valid() && i < size
      ensures r == Bits()[i]
    {
      r := Bit(bitvec[i / 8], 7 - i % 8);
    }

    /** bitvec_find_zeroes over the first size bits; -1 when there is no such run. */
    method FindZeroes(n: nat) returns (r: int)
      requires Valid()
      ensures r < 0 ==> r == -1 && (n == 0 || forall j: nat :: !FreeRun(Bits(), j, n))
      ensures r >= 0 ==> n > 0 && FirstRun(Bits(), r, n)
    {
      if n == 0 || size == 0 {
        return -1;
      }
      ghost var bits := Bits();
      var count := 0;
      for i := 0 to size
        invariant Scan(bits, i, count, n)
        invariant forall k :: 0 <= k && k + n <= i ==> !FreeRun(bits, k, n)
      {
        hide Bits, FreeRun, FirstRun, Scan;
        var taken := BitAt(i);
        ScanStep(bits, i, count, n);
        if !taken {
          count := count + 1;
          if count == n {
            return i - n + 1;
          }
        } else {
          count := 0;
        }
      }
      return -1;
    }

    /** One turn of bitvec_set: the bit of one chunk. */
    method SetOne(bit: nat, val: bool)
      requires Valid() && bit < size
      modifies bitvec
      ensures Bits() == old(Bits())[bit := val]
    {
      hide Bit, WithBit, BitsOf;
      ghost var bytes := bitvec[..];
      bitvec[bit / 8] := WithBit(bitvec[bit / 8], 7 - bit % 8, val);
      FillStep(bytes, bitvec[..], size, bit, val);
    }

    /** bitvec_set. */
    method BitvecSet(start: nat, length: nat, val: bool)
      requires Valid() && start + length <= size
      modifies bitvec
      ensures Bits() == Filled(old(Bits()), start, length, val)
    {
      if length == 0 {
        return;
      }
      hide Bits, Filled;
      ghost var was := Bits();
      FilledNone(was, start, val);
      for i := 0 to length
        invariant Bits() == Filled(was, start, i, val)
      {
        SetOne(start + i, val);
        FilledStep(was, start, i, val);
      }
    }

    /** extalloc_is_full. */
    method IsFull() returns (r: bool)
      requires Valid()
      ensures r <==> forall i :: 0 <= i < size ==> Bits()[i]
    {
      for i := 0 to size
        invariant forall j :: 0 <= j < i ==> Bits()[j]
      {
        var taken := BitAt(i);
        if !taken {
          return false;
        }
      }
      return true;
    }

    /** extalloc_alloc: the address of the lowest run that is long enough, or 0. */
    method Alloc(n: nat) returns (p: nat, ghost idx: nat)
      requires Valid() && n % chunksize == 0
      modifies bitvec
      ensures Valid()
      ensures p == 0 ==> Bits() == old(Bits()) && (n == 0 || forall j: nat :: !FreeRun(Bits(), j, n / chunksize))
      ensures p != 0 ==>
                && n > 0 && FirstRun(old(Bits()), idx, n / chunksize) && p == (base + idx) * chunksize
                && Bits() == Filled(old(Bits()), idx, n / chunksize, true)
    {
      var k := ChunksCeil(n, chunksize);
      ChunksExact(n, chunksize);
      var i := FindZeroes(k);
      idx := 0;
      if i == -1 {
        return 0, 0;
      }
      idx := i;
      BitvecSet(i, k, true);
      ProductPositive(base + i, chunksize);
      p := (base + i) * chunksize;
    }

    /** extalloc_free. */
    method Free(at: nat, n: nat, ghost idx: nat)
      requires Valid() && n % chunksize == 0 && at == (base + idx) * chunksize && idx + n / chunksize <= size
      modifies bitvec
      ensures Valid() && Bits() == Filled(old(Bits()), idx, n / chunksize, false)
    {
      var k := ChunksCeil(n, chunksize);
      ChunksExact(n, chunksize);
      DivideProduct(base + idx, chunksize);
      BitvecSet(at / chunksize - base, k, false);
    }
  }

  lemma FilledNone(bits: seq<bool>, start: nat, val: bool)
    requires start <= |bits|
    ensures Filled(bits, start, 0, val) == bits
  {
  }

  lemma FilledStep(bits: seq<bool>, start: nat, i: nat, val: bool)
    requires start + i < |bits|
    ensures Filled(bits, start, i + 1, val) == Filled(bits, start, i, val)[start + i := val]
  {
  }

  lemma ClearByte(off: nat)
    requires off < 8
    ensures !Bit(0, off)
  {
  }

  lemma FillStep(bytes: seq<bv8>, now: seq<bv8>, size: nat, i: nat, val: bool)
    requires size <= 8 * |bytes| && i < size
    requires now == bytes[i / 8 := WithBit(bytes[i / 8], 7 - i % 8, val)]
    ensures BitsOf(now, size) == BitsOf(bytes, size)[i := val]
  {
    hide BitOf;
    forall j | 0 <= j < size ensures BitOf(now, j) == if j == i then val else BitOf(bytes, j) {
      WriteBit(bytes, now, i, val, j);
    }
  }

  /** chunks_ceil. */
  function ChunksCeil(n: nat, chunksize: nat): nat
    requires chunksize > 0
  {
    (n + chunksize - 1) / chunksize
  }

  /** Enough chunks for n bytes, and no more. */
  lemma CeilCovers(n: nat, chunksize: nat)
    requires chunksize > 0
    ensures n <= ChunksCeil(n, chunksize) * chunksize < n + chunksize
  {
    var x := n + chunksize - 1;
    assert x == x / chunksize * chunksize + x % chunksize;
  }

  lemma ChunksExact(n: nat, chunksize: nat)
    requires chunksize > 0 && n % chunksize == 0
    ensures ChunksCeil(n, chunksize) == n / chunksize
  {
    var q := n / chunksize;
    assert n == q * chunksize;
    DivUnique(n + chunksize - 1, chunksize, q, chunksize - 1);
  }

  lemma ProductPositive(a: nat, c: nat)
    requires a > 0 && c > 0
    ensures a * c > 0
  {
  }

  lemma QuotientPositive(x: nat, c: nat)
    requires c > 0 && x >= c
    ensures x / c > 0
  {
  }
}
