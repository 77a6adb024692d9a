/** The process entry layout of the System V ABI, AMD64 supplement, sections 3.4.1 and 3.4.3, as a reader:
    what a program finds from its initial stack pointer up. */
module EntryLayout {
  type byte = x: int | 0 <= x < 256 witness 0

  type Word = x: int | 0 <= x < 0x1_0000_0000_0000_0000 witness 0

  /** A C string without its terminator. */
  type Bytes = s: seq<byte> | forall i :: 0 <= i < |s| ==> s[i] != 0 witness []

  datatype Aux = Aux(kind: Word, val: Word)

  // ----- words, little-endian -----

  function Pow256(n: nat): (p: nat)
    ensures p > 0
  {
    if n == 0 then 1 else 256 * Pow256(n - 1)
  }

  function LittleEndian(v: nat, n: nat): (r: seq<byte>)
    ensures |r| == n
    decreases n
  {
    if n == 0 then [] else [v % 256] + LittleEndian(v / 256, n - 1)
  }

  ghost function Value(bs: seq<byte>): nat
    decreases |bs|
  {
    if bs == [] then 0 else bs[0] + 256 * Value(bs[1..])
  }

  lemma {:induction false} ValueOfLittleEndian(v: nat, n: nat)
    requires v < Pow256(n)
    ensures Value(LittleEndian(v, n)) == v
    decreases n
  {
    if n > 0 {
      ValueOfLittleEndian(v / 256, n - 1);
      assert LittleEndian(v, n)[1..] == LittleEndian(v / 256, n - 1);
    }
  }

  lemma EightBytes()
    ensures Pow256(8) == 0x1_0000_0000_0000_0000
  {
    assert Pow256(2) == 0x1_0000;
    assert Pow256(4) == 0x1_0000_0000;
    assert Pow256(6) == 0x1_0000_0000_0000;
  }

  function WordBytes(v: Word): (r: seq<byte>)
    ensures |r| == 8
  {
    LittleEndian(v, 8)
  }

  function WordsBytes(ws: seq<Word>): (r: seq<byte>)
    ensures |r| == 8 * |ws|
    decreases |ws|
  {
    if ws == [] then [] else WordBytes(ws[0]) + WordsBytes(ws[1..])
  }

  // ----- the reader -----

  ghost function ReadWord(m: seq<byte>, a: nat): nat
    requires a + 8 <= |m|
  {
    Value(m[a..a + 8])
  }

  /** The C string at a. */
  ghost function StrAt(m: seq<byte>, a: nat): seq<byte>
    requires a <= |m|
    decreases |m| - a
  {
    if a == |m| || m[a] == 0 then [] else [m[a]] + StrAt(m, a + 1)
  }

  /** The words from a on, up to a null word. */
  ghost function UntilNull(m: seq<byte>, a: nat): seq<nat>
    decreases |m| - a
  {
    if a + 8 > |m| || ReadWord(m, a) == 0 then [] else [ReadWord(m, a)] + UntilNull(m, a + 8)
  }

  /** The auxiliary vector from a on, up to and with AT_NULL. */
  ghost function AuxUntilNull(m: seq<byte>, a: nat): seq<(nat, nat)>
    decreases |m| - a
  {
    if a + 16 > |m| then []
    else if ReadWord(m, a) == 0 then [(0, ReadWord(m, a + 8))]
    else [(ReadWord(m, a), ReadWord(m, a + 8))] + AuxUntilNull(m, a + 16)
  }

  ghost function StrsAt(m: seq<byte>, ps: seq<nat>): seq<seq<byte>> {
    seq(|ps|, i requires 0 <= i < |ps| => if ps[i] <= |m| then StrAt(m, ps[i]) else [])
  }

  /** The pointers to the arguments: as many as argc says, then a null word. */
  ghost function ArgPointers(m: seq<byte>, sp: nat): seq<nat>
    requires sp + 8 <= |m|
  {
    UntilNull(m, sp + 8)
  }

  ghost function EnvPointers(m: seq<byte>, sp: nat): seq<nat>
    requires sp + 8 <= |m|
  {
    UntilNull(m, sp + 8 + 8 * (|ArgPointers(m, sp)| + 1))
  }

  ghost function AuxVector(m: seq<byte>, sp: nat): seq<(nat, nat)>
    requires sp + 8 <= |m|
  {
    AuxUntilNull(m, sp + 8 + 8 * (|ArgPointers(m, sp)| + 1) + 8 * (|EnvPointers(m, sp)| + 1))
  }

  // ----- reading back what was written -----

  /** m holds the bytes bs at a. */
  ghost predicate Holds(m: seq<byte>, a: nat, bs: seq<byte>) { a + |bs| <= |m| && m[a..a + |bs|] == bs }

  lemma {:induction false} WordsAppend(a: seq<Word>, b: seq<Word>)
    ensures WordsBytes(a + b) == WordsBytes(a) + WordsBytes(b)
    decreases |a|
  {
    if a == [] {
      assert a + b == b;
    } else {
      assert (a + b)[1..] == a[1..] + b;
      WordsAppend(a[1..], b);
    }
  }

  lemma HoldsParts(m: seq<byte>, a: nat, x: seq<byte>, y: seq<byte>)
    ensures Holds(m, a, x + y) <==> Holds(m, a, x) && Holds(m, a + |x|, y)
  {
    if Holds(m, a, x + y) {
      assert m[a..a + |x + y|][..|x|] == m[a..a + |x|];
      assert m[a..a + |x + y|][|x|..] == m[a + |x|..a + |x| + |y|];
    }
    if Holds(m, a, x) && Holds(m, a + |x|, y) {
      assert m[a..a + |x + y|] == m[a..a + |x|] + m[a + |x|..a + |x| + |y|];
    }
  }

  lemma WordReadsBack(m: seq<byte>, a: nat, w: Word)
    requires Holds(m, a, WordBytes(w))
    ensures a + 8 <= |m| && ReadWord(m, a) == w
  {
    EightBytes();
    ValueOfLittleEndian(w, 8);
  }

  lemma FirstWord(m: seq<byte>, a: nat, ws: seq<Word>)
    requires ws != [] && Holds(m, a, WordsBytes(ws))
    ensures a + 8 <= |m| && ReadWord(m, a) == ws[0] && Holds(m, a + 8, WordsBytes(ws[1..]))
  {
    HoldsParts(m, a, WordBytes(ws[0]), WordsBytes(ws[1..]));
    WordReadsBack(m, a, ws[0]);
  }

  ghost predicate NonNull(ws: seq<Word>) { forall i :: 0 <= i < |ws| ==> ws[i] != 0 }

  /** Non-null words and a null word read back as those words. */
  lemma {:induction false} PointersReadBack(m: seq<byte>, a: nat, ws: seq<Word>)
    requires NonNull(ws) && Holds(m, a, WordsBytes(ws + [0]))
    ensures UntilNull(m, a) == ws
    decreases |ws|
  {
    FirstWord(m, a, ws + [0]);
    if ws != [] {
      assert (ws + [0])[1..] == ws[1..] + [0];
      PointersReadBack(m, a + 8, ws[1..]);
    }
  }

  function AuxWords(xs: seq<Aux>): (r: seq<Word>)
    ensures |r| == 2 * |xs|
    decreases |xs|
  {
    if xs == [] then [] else [xs[0].kind, xs[0].val] + AuxWords(xs[1..])
  }

  ghost function AuxPairs(xs: seq<Aux>): seq<(nat, nat)> {
    seq(|xs|, i requires 0 <= i < |xs| => (xs[i].kind as nat, xs[i].val as nat))
  }

  /** An auxiliary vector whose only AT_NULL is its last entry. */
  ghost predicate AuxEnds(xs: seq<Aux>) {
    xs != [] && forall i :: 0 <= i < |xs| ==> (xs[i].kind == 0 <==> i == |xs| - 1)
  }

  lemma AuxPair(m: seq<byte>, a: nat, xs: seq<Aux>)
    requires xs != [] && Holds(m, a, WordsBytes(AuxWords(xs)))
    ensures a + 16 <= |m| && ReadWord(m, a) == xs[0].kind && ReadWord(m, a + 8) == xs[0].val
    ensures Holds(m, a + 16, WordsBytes(AuxWords(xs[1..])))
  {
    hide Holds, ReadWord, WordsBytes;
    FirstWord(m, a, AuxWords(xs));
    assert AuxWords(xs)[1..] == [xs[0].val] + AuxWords(xs[1..]);
    FirstWord(m, a + 8, AuxWords(xs)[1..]);
    assert AuxWords(xs)[1..][1..] == AuxWords(xs[1..]);
  }

  lemma {:induction false} AuxReadsBack(m: seq<byte>, a: nat, xs: seq<Aux>)
    requires AuxEnds(xs) && Holds(m, a, WordsBytes(AuxWords(xs)))
    ensures AuxUntilNull(m, a) == AuxPairs(xs)
    decreases |xs|
  {
    AuxPair(m, a, xs);
    hide Holds, ReadWord, WordsBytes, AuxWords;
    if |xs| > 1 {
      AuxReadsBack(m, a + 16, xs[1..]);
      assert AuxPairs(xs) == [(xs[0].kind as nat, xs[0].val as nat)] + AuxPairs(xs[1..]);
    } else {
      assert AuxPairs(xs) == [(0, xs[0].val as nat)];
    }
  }

  lemma {:induction false} StringReadsBack(m: seq<byte>, a: nat, s: Bytes)
    requires Holds(m, a, s + [0])
    ensures a <= |m| && StrAt(m, a) == s
    decreases |s|
  {
    var t := s + [0];
    assert m[a] == m[a..a + |t|][0] == t[0];
    if s != [] {
      assert m[a + 1..a + 1 + |s|] == m[a..a + |t|][1..];
      assert t[1..] == s[1..] + [0];
      StringReadsBack(m, a + 1, s[1..]);
    }
  }
}
