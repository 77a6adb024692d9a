/** linux/thread.c, stack_init: the initial stack of a thread. */
module StackImage {
  import opened Wrappers
  import opened EntryLayout

  const ARGV_MAX: nat := 1024
  const ENVP_MAX: nat := 1024
  const MAXLEN: nat := 1024
  const STACK_RND_RANGE: nat := 8192
  const AUXV_SIZE: nat := 19 * 16
  /** What the strings and pointer arrays must leave free. */
  const FIXED: nat := AUXV_SIZE + 16 + 8 + 2 * 8 + STACK_RND_RANGE + 32

  const AT_NULL: Word := 0
  const AT_PHDR: Word := 3
  const AT_PHENT: Word := 4
  const AT_PHNUM: Word := 5
  const AT_PAGESZ: Word := 6
  const AT_BASE: Word := 7
  const AT_FLAGS: Word := 8
  const AT_ENTRY: Word := 9
  const AT_UID: Word := 11
  const AT_EUID: Word := 12
  const AT_GID: Word := 13
  const AT_EGID: Word := 14
  const AT_HWCAP: Word := 16
  const AT_SECURE: Word := 23
  const AT_RANDOM: Word := 25
  const AT_HWCAP2: Word := 26
  const AT_EXECFN: Word := 31
  const AT_SYSINFO: Word := 32
  const AT_SYSINFO_EHDR: Word := 33

  function Trunc16(x: int): int { x - x % 16 }

  /** A string as far as it is copied. */
  function Cut(s: Bytes): (r: Bytes)
    ensures |s| <= MAXLEN ==> r == s
    ensures |s| > MAXLEN ==> |r| == MAXLEN && r <= s
  {
    s[..Min(|s|, MAXLEN)]
  }

  function CutAll(strs: seq<Bytes>): (r: seq<Bytes>)
    ensures |r| == |strs|
  {
    seq(|strs|, i requires 0 <= i < |strs| => Cut(strs[i]))
  }

  /** The strings in memory, each with its terminator. */
  function Strings(strs: seq<Bytes>): seq<byte>
    decreases |strs|
  {
    if strs == [] then [] else Strings(strs[..|strs| - 1]) + Cut(strs[|strs| - 1]) + [0]
  }

  /** Strings and pointer slots. */
  function Cost(strs: seq<Bytes>): nat { |Strings(strs)| + 8 * |strs| }

  lemma CostStep(strs: seq<Bytes>, n: nat)
    requires n < |strs|
    ensures Strings(strs[..n + 1]) == Strings(strs[..n]) + Cut(strs[n]) + [0]
    ensures Cost(strs[..n + 1]) == Cost(strs[..n]) + |Cut(strs[n])| + 1 + 8
  {
    assert strs[..n + 1][..n] == strs[..n];
  }

  lemma CostNothing(strs: seq<Bytes>)
    ensures Strings(strs[..0]) == [] && Cost(strs[..0]) == 0
  {
  }

  /** n is how many of the first limit strings are accepted with used bytes of the budget gone: the
      longest prefix that fits. */
  ghost predicate Accepted(strs: seq<Bytes>, limit: int, budget: nat, used: nat, n: nat) {
    && n <= |strs| && (n == 0 || n <= limit) && (n == 0 || used + Cost(strs[..n]) <= budget)
    && (n < limit && n < |strs| ==> used + Cost(strs[..n + 1]) > budget)
  }

  /** The counting loop, for argv and again for envp. */
  method CountStrings(strs: seq<Bytes>, limit: int, budget: nat, used0: nat) returns (n: nat, used: nat, len: nat)
    ensures Accepted(strs, limit, budget, used0, n)
    ensures used == used0 + Cost(strs[..n]) && len == |Strings(strs[..n])|
  {
    n, used, len := 0, used0, 0;
    CostNothing(strs);
    while n < limit
      invariant n <= |strs| && (n == 0 || n <= limit)
      invariant used == used0 + Cost(strs[..n]) && len == |Strings(strs[..n])|
      invariant n == 0 || used <= budget
      decreases limit - n
    {
      if n == |strs| {
        break;
      }
      var l := |Cut(strs[n])|;
      CostStep(strs, n);
      if used + l + 1 + 8 > budget {
        break;
      }
      used := used + l + 1 + 8;
      len := len + l + 1;
      n := n + 1;
    }
  }

  // ----- writing -----

  /** Bytes written over memory. */
  function Over(m: seq<byte>, at: nat, bs: seq<byte>): (r: seq<byte>)
    requires at + |bs| <= |m|
    ensures |r| == |m|
  {
    m[..at] + bs + m[at + |bs|..]
  }

  lemma OverNothing(m: seq<byte>, at: nat)
    requires at <= |m|
    ensures Over(m, at, []) == m
  {
  }

  lemma OverJoins(m: seq<byte>, at: nat, x: seq<byte>, y: seq<byte>)
    requires at + |x| + |y| <= |m|
    ensures Over(Over(m, at, x), at + |x|, y) == Over(m, at, x + y)
  {
  }

  lemma OverHolds(m: seq<byte>, at: nat, bs: seq<byte>)
    requires at + |bs| <= |m|
    ensures Holds(Over(m, at, bs), at, bs)
  {
  }

  lemma OverElsewhere(m: seq<byte>, at: nat, bs: seq<byte>)
    requires at + |bs| <= |m|
    ensures |Over(m, at, bs)| == |m|
    ensures forall i :: 0 <= i < |m| && (i < at || at + |bs| <= i) ==> Over(m, at, bs)[i] == m[i]
  {
  }

  /** What lies clear of a write stays. */
  lemma OverKeeps(m: seq<byte>, at: nat, bs: seq<byte>, a: nat, x: seq<byte>)
    requires at + |bs| <= |m| && Holds(m, a, x) && (a + |x| <= at || at + |bs| <= a)
    ensures Holds(Over(m, at, bs), a, x)
  {
    var r := Over(m, at, bs);
    assert forall i :: a <= i < a + |x| ==> r[i] == m[i];
    assert r[a..a + |x|] == m[a..a + |x|];
  }

  /** lfi_box_copyto. */
  method CopyTo(mem: array<byte>, at: nat, bs: seq<byte>)
    requires at + |bs| <= mem.Length
    modifies mem
    ensures mem[..] == Over(old(mem[..]), at, bs)
  {
    forall i | 0 <= i < |bs| {
      mem[at + i] := bs[i];
    }
  }

  lemma {:induction false} StringsGrow(strs: seq<Bytes>, i: nat)
    requires i <= |strs|
    ensures |Strings(strs[..i])| <= |Strings(strs)|
    decreases |strs|
  {
    if i == |strs| {
      assert strs[..i] == strs;
    } else {
      assert strs[..|strs| - 1][..i] == strs[..i];
      StringsGrow(strs[..|strs| - 1], i);
    }
  }

  /** Where string i of strs starts when they are copied from `start`. */
  function PointerTo(strs: seq<Bytes>, start: nat, i: nat): nat
    requires i <= |strs|
  {
    start + |Strings(strs[..i])|
  }

  ghost predicate PointsAt(ptrs: seq<Word>, strs: seq<Bytes>, start: nat) {
    |ptrs| <= |strs| && forall i :: 0 <= i < |ptrs| ==> ptrs[i] == PointerTo(strs, start, i) && ptrs[i] != 0
  }

  /** The copying loop, for argv and again for envp. */
  method CopyStrings(mem: array<byte>, start: nat, strs: seq<Bytes>) returns (ptrs: seq<Word>)
    requires 0 < start && start + |Strings(strs)| < mem.Length <= 0x1_0000_0000_0000_0000
    modifies mem
    ensures mem[..] == Over(old(mem[..]), start, Strings(strs))
    ensures |ptrs| == |strs| && PointsAt(ptrs, strs, start)
  {
    hide Strings, Over, Cut;
    ptrs := [];
    var at := start;
    ghost var m := mem[..];
    CostNothing(strs);
    OverNothing(m, start);
    for i := 0 to |strs|
      invariant |ptrs| == i && PointsAt(ptrs, strs, start)
      invariant at == PointerTo(strs, start, i) && at <= start + |Strings(strs)|
      invariant mem[..] == Over(m, start, Strings(strs[..i]))
    {
      CostStep(strs, i);
      StringsGrow(strs, i + 1);
      var s := Cut(strs[i]);
      CopyTo(mem, at, s);
      OverJoins(m, start, Strings(strs[..i]), s);
      CopyTo(mem, at + |s|, [0]);
      OverJoins(m, start, Strings(strs[..i]) + s, [0]);
      ptrs := ptrs + [at];
      at := at + |s| + 1;
    }
    assert strs[..|strs|] == strs;
  }

  // ----- reading the image -----

  lemma {:induction false} StringInPlace(m: seq<byte>, start: nat, strs: seq<Bytes>, i: nat)
    requires Holds(m, start, Strings(strs)) && i < |strs|
    ensures Holds(m, PointerTo(strs, start, i), Cut(strs[i]) + [0])
    decreases |strs|
  {
    var front := strs[..|strs| - 1];
    HoldsParts(m, start, Strings(front), Cut(strs[|strs| - 1]) + [0]);
    assert Strings(front) + (Cut(strs[|strs| - 1]) + [0]) == Strings(strs);
    if i < |strs| - 1 {
      StringInPlace(m, start, front, i);
      assert front[..i] == strs[..i];
    }
  }

  /** Pointers to copied strings lead to those strings. */
  lemma StringsReadBack(m: seq<byte>, start: nat, strs: seq<Bytes>, ptrs: seq<Word>)
    requires Holds(m, start, Strings(strs)) && |ptrs| == |strs| && PointsAt(ptrs, strs, start)
    ensures StrsAt(m, ptrs) == CutAll(strs)
  {
    forall i | 0 <= i < |strs| ensures ptrs[i] <= |m| && StrAt(m, ptrs[i]) == Cut(strs[i]) {
      StringInPlace(m, start, strs, i);
      StringReadsBack(m, PointerTo(strs, start, i), Cut(strs[i]));
    }
  }

  function ImageWords(aptrs: seq<Word>, eptrs: seq<Word>, aux: seq<Aux>): seq<Word>
    requires |aptrs| < 0x1_0000_0000
  {
    [|aptrs|] + aptrs + [0] + eptrs + [0] + AuxWords(aux)
  }

  /** What a program finds at sp: argc, its arguments and environment, and the auxiliary vector. */
  ghost predicate EntryImage(m: seq<byte>, sp: nat, args: seq<Bytes>, envs: seq<Bytes>, aux: seq<Aux>) {
    && sp + 8 <= |m|
    && ReadWord(m, sp) == |args| == |ArgPointers(m, sp)|
    && StrsAt(m, ArgPointers(m, sp)) == CutAll(args)
    && StrsAt(m, EnvPointers(m, sp)) == CutAll(envs)
    && AuxVector(m, sp) == AuxPairs(aux)
  }

  lemma WordsReadBack(m: seq<byte>, sp: nat, aptrs: seq<Word>, eptrs: seq<Word>, aux: seq<Aux>)
    requires |aptrs| < 0x1_0000_0000 && NonNull(aptrs) && NonNull(eptrs) && AuxEnds(aux)
    requires Holds(m, sp, WordsBytes(ImageWords(aptrs, eptrs, aux)))
    ensures sp + 8 <= |m| && ReadWord(m, sp) == |aptrs|
    ensures ArgPointers(m, sp) == aptrs && EnvPointers(m, sp) == eptrs && AuxVector(m, sp) == AuxPairs(aux)
  {
    hide Holds, ReadWord, AuxWords, AuxUntilNull, UntilNull, WordsBytes, AuxPairs;
    var tail := eptrs + [0] + AuxWords(aux);
    var rest := aptrs + [0] + tail;
    assert ImageWords(aptrs, eptrs, aux) == [|aptrs|] + rest;
    assert ([|aptrs|] + rest)[1..] == rest;
    FirstWord(m, sp, [|aptrs|] + rest);
    WordsAppend(aptrs + [0], tail);
    HoldsParts(m, sp + 8, WordsBytes(aptrs + [0]), WordsBytes(tail));
    PointersReadBack(m, sp + 8, aptrs);
    WordsAppend(eptrs + [0], AuxWords(aux));
    var env := sp + 8 + 8 * (|aptrs| + 1);
    HoldsParts(m, env, WordsBytes(eptrs + [0]), WordsBytes(AuxWords(aux)));
    PointersReadBack(m, env, eptrs);
    AuxReadsBack(m, env + 8 * (|eptrs| + 1), aux);
  }

  lemma ImageReadsBack(m: seq<byte>, sp: nat, start: nat, args: seq<Bytes>, envs: seq<Bytes>,
                       aptrs: seq<Word>, eptrs: seq<Word>, aux: seq<Aux>)
    requires |args| < 0x1_0000_0000 && AuxEnds(aux)
    requires |aptrs| == |args| && PointsAt(aptrs, args, start)
    requires |eptrs| == |envs| && PointsAt(eptrs, envs, start + |Strings(args)|)
    requires Holds(m, sp, WordsBytes(ImageWords(aptrs, eptrs, aux)))
    requires Holds(m, start, Strings(args)) && Holds(m, start + |Strings(args)|, Strings(envs))
    ensures EntryImage(m, sp, args, envs, aux) && ArgPointers(m, sp) == aptrs
  {
    WordsReadBack(m, sp, aptrs, eptrs, aux);
    StringsReadBack(m, start, args, aptrs);
    StringsReadBack(m, start + |Strings(args)|, envs, eptrs);
  }

  // ----- the whole image -----

  datatype Elf = Elf(ldbase: Word, phdr: Word, phnum: Word, phent: Word, entry: Word)

  datatype Sys = Sys(pagesize: Word, hwcap: Word, hwcap2: Word)

  function AuxvOf(elf: Elf, sys: Sys, execfn: Word, random: Word): (xs: seq<Aux>)
    ensures AuxEnds(xs) && |xs| == 19
  {
    [Aux(AT_SECURE, 0), Aux(AT_BASE, elf.ldbase), Aux(AT_PHDR, elf.phdr), Aux(AT_PHNUM, elf.phnum),
     Aux(AT_PHENT, elf.phent), Aux(AT_ENTRY, elf.entry), Aux(AT_EXECFN, execfn), Aux(AT_PAGESZ, sys.pagesize),
     Aux(AT_HWCAP, sys.hwcap), Aux(AT_HWCAP2, sys.hwcap2), Aux(AT_RANDOM, random), Aux(AT_FLAGS, 0),
     Aux(AT_UID, 1000), Aux(AT_EUID, 1000), Aux(AT_GID, 1000), Aux(AT_EGID, 1000),
     Aux(AT_SYSINFO, 0), Aux(AT_SYSINFO_EHDR, 0), Aux(AT_NULL, 0)]
  }

  /** The value a reader finds for a key: that of the first pair with it. */
  ghost function Lookup(xs: seq<(nat, nat)>, key: nat): Option<nat>
    decreases |xs|
  {
    if xs == [] then None else if xs[0].0 == key then Some(xs[0].1) else Lookup(xs[1..], key)
  }

  /** What a program learns about itself, by the numbers the System V ABI and Linux give the keys. */
  ghost predicate AuxTells(xs: seq<(nat, nat)>, elf: Elf, sys: Sys, execfn: Word, random: Word) {
    && Lookup(xs, 9) == Some(elf.entry as nat) && Lookup(xs, 7) == Some(elf.ldbase as nat)
    && Lookup(xs, 3) == Some(elf.phdr as nat) && Lookup(xs, 4) == Some(elf.phent as nat)
    && Lookup(xs, 5) == Some(elf.phnum as nat) && Lookup(xs, 6) == Some(sys.pagesize as nat)
    && Lookup(xs, 16) == Some(sys.hwcap as nat) && Lookup(xs, 26) == Some(sys.hwcap2 as nat)
    && Lookup(xs, 31) == Some(execfn as nat) && Lookup(xs, 25) == Some(random as nat)
    && Lookup(xs, 23) == Some(0) && Lookup(xs, 8) == Some(0)
    && Lookup(xs, 11) == Lookup(xs, 12) == Lookup(xs, 13) == Lookup(xs, 14) == Some(1000)
  }

  lemma LookupAt(xs: seq<(nat, nat)>, i: nat)
    requires i < |xs| && forall j :: 0 <= j < i ==> xs[j].0 != xs[i].0
    ensures Lookup(xs, xs[i].0) == Some(xs[i].1)
    decreases i
  {
    if i > 0 {
      LookupAt(xs[1..], i - 1);
    }
  }

  lemma AuxvTells(elf: Elf, sys: Sys, execfn: Word, random: Word)
    ensures AuxTells(AuxPairs(AuxvOf(elf, sys, execfn, random)), elf, sys, execfn, random)
  {
    var xs := AuxPairs(AuxvOf(elf, sys, execfn, random));
    forall i: nat | i < 16 ensures Lookup(xs, xs[i].0) == Some(xs[i].1) {
      LookupAt(xs, i);
    }
    hide Lookup;
    assert xs[5].0 == 9 && xs[1].0 == 7 && xs[2].0 == 3 && xs[4].0 == 4 && xs[3].0 == 5 && xs[7].0 == 6;
    assert xs[8].0 == 16 && xs[9].0 == 26 && xs[6].0 == 31 && xs[10].0 == 25 && xs[0].0 == 23 && xs[11].0 == 8;
    assert xs[12].0 == 11 && xs[13].0 == 12 && xs[14].0 == 13 && xs[15].0 == 14;
  }

  function Budget(size: nat): nat { if size > FIXED then size - FIXED else 0 }

  /** Where the parts go, below the randomised top. */
  function StringsStart(top: int, len: nat): int { Trunc16(top - len) }

  function ImageStart(top: int, len: nat, na: nat, ne: nat): int {
    Trunc16(StringsStart(top, len) - 16 - 8 - 8 * (na + 1) - 8 * (ne + 1) - AUXV_SIZE)
  }

  /** The image ends at top but for less than 16 bytes of alignment in each of two places. */
  ghost predicate Snug(sp: int, top: int, len: nat, na: nat, ne: nat) {
    var need := len + 16 + 8 + 8 * (na + 1) + 8 * (ne + 1) + 19 * 16;
    top - need - 32 < sp <= top - need
  }

  /** The parts lie in order without overlap, and inside the stack if the budget was kept. */
  lemma PartsFit(stack: nat, size: nat, off: nat, len: nat, na: nat, ne: nat)
    requires off < STACK_RND_RANGE && FIXED <= stack
    requires len + 8 * (na + ne) == 0 || len + 8 * (na + ne) <= Budget(size)
    ensures var top := stack + size - off;
            var strs, sp := StringsStart(top, len), ImageStart(top, len, na, ne);
            && 0 < sp && sp % 16 == 0 && strs % 16 == 0
            && sp + 8 * (1 + na + 1 + ne + 1 + 38) <= strs - 16
            && strs + len <= stack + size && Snug(sp, top, len, na, ne)
            && (size > FIXED ==> stack <= sp)
  {
    var strs := StringsStart(stack + size - off, len);
    TruncBounds(stack + size - off - len);
    TruncBounds(strs - 16 - 8 - 8 * (na + 1) - 8 * (ne + 1) - AUXV_SIZE);
    hide Trunc16;
  }

  lemma TruncBounds(x: int)
    ensures x - 16 < Trunc16(x) <= x && Trunc16(x) % 16 == 0
  {
  }

  /** The four writes touch nothing below or above them. */
  lemma PartsInside(m0: seq<byte>, m3: seq<byte>, strs: nat, args: seq<byte>, envs: seq<byte>,
                    rand: nat, random: seq<byte>, sp: nat, words: seq<byte>)
    requires sp + |words| <= rand && rand + |random| == strs && strs + |args| + |envs| <= |m0|
    requires m3 == Over(Over(Over(Over(m0, strs, args), strs + |args|, envs), rand, random), sp, words)
    ensures forall i :: 0 <= i < |m0| && (i < sp || strs + |args| + |envs| <= i) ==> m3[i] == m0[i]
  {
    var a := Over(m0, strs, args);
    var b := Over(a, strs + |args|, envs);
    var c := Over(b, rand, random);
    OverElsewhere(m0, strs, args);
    OverElsewhere(a, strs + |args|, envs);
    OverElsewhere(b, rand, random);
    OverElsewhere(c, sp, words);
    hide Over;
  }

  /** The three writes below the strings leave what was written before. */
  lemma PartsKept(m0: seq<byte>, m3: seq<byte>, strs: nat, args: seq<byte>, envs: seq<byte>,
                  rand: nat, random: seq<byte>, sp: nat, words: seq<byte>)
    requires sp + |words| <= rand && rand + |random| == strs && strs + |args| + |envs| <= |m0|
    requires m3 == Over(Over(Over(Over(m0, strs, args), strs + |args|, envs), rand, random), sp, words)
    ensures Holds(m3, strs, args) && Holds(m3, strs + |args|, envs) && Holds(m3, rand, random) && Holds(m3, sp, words)
  {
    hide Over, Holds;
    var a := Over(m0, strs, args);
    var b := Over(a, strs + |args|, envs);
    var c := Over(b, rand, random);
    OverHolds(m0, strs, args);
    OverHolds(a, strs + |args|, envs);
    OverKeeps(a, strs + |args|, envs, strs, args);
    OverHolds(b, rand, random);
    OverKeeps(b, rand, random, strs, args);
    OverKeeps(b, rand, random, strs + |args|, envs);
    OverHolds(c, sp, words);
    OverKeeps(c, sp, words, strs, args);
    OverKeeps(c, sp, words, strs + |args|, envs);
    OverKeeps(c, sp, words, rand, random);
  }

  /** What a program finds on its stack, with the address of its name and of the random bytes. */
  ghost predicate Readable(m: seq<byte>, sp: nat, args: seq<Bytes>, envs: seq<Bytes>, elf: Elf, sys: Sys,
                           random: seq<byte>, execfn: Word, rand: Word) {
    && EntryImage(m, sp, args, envs, AuxvOf(elf, sys, execfn, rand))
    && AuxTells(AuxVector(m, sp), elf, sys, execfn, rand)
    && Holds(m, rand, random)
    && execfn == if args == [] then 0 else ArgPointers(m, sp)[0]
  }

  /** The result of stack_init: what was accepted, what a program will read, and where it lies. */
  ghost predicate Initialised(was: seq<byte>, m: seq<byte>, stack: nat, size: nat, sp: nat,
                              args: seq<Bytes>, envs: seq<Bytes>, elf: Elf, sys: Sys, random: seq<byte>) {
    && sp % 16 == 0 && sp + 8 <= |m| == |was|
    && (exists execfn: Word, rand: Word :: Readable(m, sp, args, envs, elf, sys, random, execfn, rand))
    && (size > FIXED ==> stack <= sp && forall i :: 0 <= i < |m| && (i < stack || stack + size <= i) ==> m[i] == was[i])
  }

  /** Writes the pointer arrays and the auxiliary vector, each with its own copy. */
  method CopyWords(mem: array<byte>, at: nat, aptrs: seq<Word>, eptrs: seq<Word>, aux: seq<Aux>)
    requires |aptrs| < 0x1_0000_0000
    requires at + 8 * |ImageWords(aptrs, eptrs, aux)| <= mem.Length
    modifies mem
    ensures mem[..] == Over(old(mem[..]), at, WordsBytes(ImageWords(aptrs, eptrs, aux)))
  {
    hide Over, WordsBytes, AuxWords;
    ghost var m := mem[..];
    var argc: seq<Word> := [|aptrs|];
    var next := at;
    CopyTo(mem, next, WordsBytes(argc));
    next := next + 8;
    CopyTo(mem, next, WordsBytes(aptrs + [0]));
    OverJoins(m, at, WordsBytes(argc), WordsBytes(aptrs + [0]));
    WordsAppend(argc, aptrs + [0]);
    next := next + 8 * (|aptrs| + 1);
    CopyTo(mem, next, WordsBytes(eptrs + [0]));
    OverJoins(m, at, WordsBytes(argc + (aptrs + [0])), WordsBytes(eptrs + [0]));
    WordsAppend(argc + (aptrs + [0]), eptrs + [0]);
    next := next + 8 * (|eptrs| + 1);
    CopyTo(mem, next, WordsBytes(AuxWords(aux)));
    OverJoins(m, at, WordsBytes(argc + (aptrs + [0]) + (eptrs + [0])), WordsBytes(AuxWords(aux)));
    WordsAppend(argc + (aptrs + [0]) + (eptrs + [0]), AuxWords(aux));
    assert argc + (aptrs + [0]) + (eptrs + [0]) + AuxWords(aux) == ImageWords(aptrs, eptrs, aux);
  }

  /** The writing half of stack_init, with every part in its place. */
  method WriteImage(mem: array<byte>, strs: nat, sp: nat, args: seq<Bytes>, envs: seq<Bytes>,
                    random: seq<byte>, elf: Elf, sys: Sys)
    returns (execfn: Word, rand: Word)
    requires mem.Length <= 0x1_0000_0000_0000_0000 && |random| == 16 && |args| < 0x1_0000_0000
    requires 0 < sp && sp + 8 * (1 + |args| + 1 + |envs| + 1 + 38) <= strs - 16
    requires strs + |Strings(args)| + |Strings(envs)| < mem.Length
    modifies mem
    ensures EntryImage(mem[..], sp, args, envs, AuxvOf(elf, sys, execfn, rand)) && Holds(mem[..], rand, random)
    ensures sp + 8 <= mem.Length && execfn == if args == [] then 0 else ArgPointers(mem[..], sp)[0]
    ensures forall i :: 0 <= i < mem.Length && (i < sp || strs + |Strings(args)| + |Strings(envs)| <= i) ==>
                          mem[i] == old(mem[i])
  {
    hide Strings, Over, EntryImage, Holds, WordsBytes, ImageWords, AuxvOf, PointsAt;
    ghost var m0 := mem[..];
    var aptrs := CopyStrings(mem, strs, args);
    var eptrs := CopyStrings(mem, strs + |Strings(args)|, envs);
    rand := strs - 16;
    CopyTo(mem, rand, random);
    execfn := if |aptrs| == 0 then 0 else aptrs[0];
    var auxv := AuxvOf(elf, sys, execfn, rand);
    ImageSize(aptrs, eptrs, auxv);
    CopyWords(mem, sp, aptrs, eptrs, auxv);
    PartsInside(m0, mem[..], strs, Strings(args), Strings(envs), rand, random, sp,
                WordsBytes(ImageWords(aptrs, eptrs, auxv)));
    PartsKept(m0, mem[..], strs, Strings(args), Strings(envs), rand, random, sp,
              WordsBytes(ImageWords(aptrs, eptrs, auxv)));
    ImageReadsBack(mem[..], sp, strs, args, envs, aptrs, eptrs, auxv);
  }

  /** stack_init. r is the 16-bit random word, random the bytes for AT_RANDOM; argv and envp are the
      entries before their null pointers. */
  method StackInit(mem: array<byte>, stack: nat, size: nat, argc: int, argv: seq<Bytes>, envp: seq<Bytes>,
                   aslr: bool, r: nat, random: seq<byte>, elf: Elf, sys: Sys)
    returns (sp: nat, ghost na: nat, ghost ne: nat)
    requires FIXED <= stack && stack + size < mem.Length <= 0x1_0000_0000_0000_0000 && |random| == 16
    modifies mem
    ensures Accepted(argv, Min(argc, ARGV_MAX), Budget(size), 0, na)
    ensures Accepted(envp, ENVP_MAX, Budget(size), Cost(argv[..na]), ne)
    ensures |argv| <= argc && |argv| <= 1024 && |envp| <= 1024 && Cost(argv) + Cost(envp) + 8568 <= size ==>
              na == |argv| && ne == |envp|
    ensures na <= |argv| && ne <= |envp|
    ensures Snug(sp, stack + size - (if aslr then r % STACK_RND_RANGE else 0),
                 |Strings(argv[..na])| + |Strings(envp[..ne])|, na, ne)
    ensures Initialised(old(mem[..]), mem[..], stack, size, sp, argv[..na], envp[..ne], elf, sys, random)
  {
    hide Accepted, Strings, Over, EntryImage, Holds, AuxvOf, Trunc16, Initialised, Snug, Cost;
    var nargv, used, strsLen := CountStrings(argv, Min(argc, ARGV_MAX), Budget(size), 0);
    var nenvp, used2, envLen := CountStrings(envp, ENVP_MAX, Budget(size), used);
    na, ne := nargv, nenvp;
    UsedFits(argv, envp, Min(argc, ARGV_MAX), Budget(size), na, ne);
    AllAccepted(argv, envp, argc, size, na, ne);
    var off := if aslr then r % STACK_RND_RANGE else 0;
    var top := stack + size - off;
    var len := strsLen + envLen;
    PartsFit(stack, size, off, len, nargv, nenvp);
    ghost var m0 := mem[..];
    sp := ImageStart(top, len, nargv, nenvp);
    var execfn, rand := WriteImage(mem, StringsStart(top, len), sp, argv[..nargv], envp[..nenvp], random, elf, sys);
    Conclude(m0, mem[..], stack, size, sp, argv[..na], envp[..ne], elf, sys, random, execfn, rand);
  }

  lemma ImageSize(aptrs: seq<Word>, eptrs: seq<Word>, aux: seq<Aux>)
    requires |aptrs| < 0x1_0000_0000
    ensures |ImageWords(aptrs, eptrs, aux)| == 1 + |aptrs| + 1 + |eptrs| + 1 + 2 * |aux|
  {
  }

  lemma UsedFits(argv: seq<Bytes>, envp: seq<Bytes>, limit: int, budget: nat, na: nat, ne: nat)
    requires limit <= ARGV_MAX && Accepted(argv, limit, budget, 0, na)
    requires Accepted(envp, ENVP_MAX, budget, Cost(argv[..na]), ne)
    ensures na <= 1024 && ne <= 1024
    ensures var len := |Strings(argv[..na])| + |Strings(envp[..ne])|;
            len + 8 * (na + ne) == 0 || len + 8 * (na + ne) <= budget
  {
    CostNothing(argv);
    CostNothing(envp);
  }

  lemma {:induction false} CostPrefix(strs: seq<Bytes>, n: nat)
    requires n <= |strs|
    ensures Cost(strs[..n]) <= Cost(strs)
    decreases |strs|
  {
    if n < |strs| {
      var m := |strs| - 1;
      CostStep(strs, m);
      assert strs[..m + 1] == strs && strs[..m][..n] == strs[..n];
      CostPrefix(strs[..m], n);
    } else {
      assert strs[..n] == strs;
    }
  }

  /** Nothing is dropped that fits: 8568 bytes are kept for the fixed part and the random offset. */
  lemma AllAccepted(argv: seq<Bytes>, envp: seq<Bytes>, argc: int, size: nat, na: nat, ne: nat)
    requires Accepted(argv, Min(argc, ARGV_MAX), Budget(size), 0, na)
    requires Accepted(envp, ENVP_MAX, Budget(size), Cost(argv[..na]), ne)
    ensures na <= |argv| && ne <= |envp|
    ensures |argv| <= argc && |argv| <= 1024 && |envp| <= 1024 && Cost(argv) + Cost(envp) + 8568 <= size ==>
              na == |argv| && ne == |envp|
  {
    CostPrefix(argv, na);
    if na < |argv| {
      CostPrefix(argv, na + 1);
    }
    if ne < |envp| {
      CostPrefix(envp, ne + 1);
    }
    hide Cost, Strings;
  }

  lemma Conclude(was: seq<byte>, m: seq<byte>, stack: nat, size: nat, sp: nat, args: seq<Bytes>, envs: seq<Bytes>,
                 elf: Elf, sys: Sys, random: seq<byte>, execfn: Word, rand: Word)
    requires |m| == |was| && sp % 16 == 0 && sp + 8 <= |m|
    requires EntryImage(m, sp, args, envs, AuxvOf(elf, sys, execfn, rand)) && Holds(m, rand, random)
    requires execfn == if args == [] then 0 else ArgPointers(m, sp)[0]
    requires size > FIXED ==>
               stack <= sp && forall i :: 0 <= i < |m| && (i < stack || stack + size <= i) ==> m[i] == was[i]
    ensures Initialised(was, m, stack, size, sp, args, envs, elf, sys, random)
  {
    AuxvTells(elf, sys, execfn, rand);
    hide AuxTells, AuxvOf;
    assert Readable(m, sp, args, envs, elf, sys, random, execfn, rand);
  }
}
