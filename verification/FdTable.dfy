/** linux/fd.c: the sandbox's descriptor table and the host descriptors it owns. */
module FdTables {
  import opened Wrappers

  const LINUX_NOFILE: nat := 1024
  const EBADF: int := 9
  const ENOMEM: int := 12
  const EINVAL: int := 22
  const EMFILE: int := 24

  type File = nat

  /** What the host answers during one operation: whether there is memory, the descriptor dup gives (-1
      when it fails), and whether dup2 succeeds. */
  datatype Answers = Answers(memory: bool, dup: int, dup2: bool)

  /** A descriptor dup can give. */
  predicate Unused(open: map<int, File>, h: int) { h >= 0 && h !in open }

  /** The descriptors hs stand for the files they stood for. */
  ghost predicate Kept(hs: set<int>, was: map<int, File>, now: map<int, File>) {
    forall h :: h in hs && h in was ==> h in now && now[h] == was[h]
  }

  /** The host's descriptors and the files they stand for, with a log of the calls of dup and close. */
  class Kernel {
    var open: map<int, File>
    ghost var made: multiset<int>
    ghost var closed: multiset<int>

    ghost predicate Valid()
      reads this
    {
      forall h :: h in open ==> h >= 0
    }

    constructor (open: map<int, File>)
      ensures this.open == open && made == closed == multiset{}
    {
      this.open, made, closed := open, multiset{}, multiset{};
    }

    /** dup: a descriptor not in use, for the same file. */
    method Dup(h: int, answer: int) returns (r: int)
      requires Valid()
      modifies this
      ensures Valid() && closed == old(closed)
      ensures r == if h in old(open) && Unused(old(open), answer) then answer else -1
      ensures open == if r == -1 then old(open) else old(open)[r := old(open)[h]]
      ensures made == old(made) + if r == -1 then multiset{} else multiset{r}
    {
      if h !in open || answer < 0 || answer in open {
        return -1;
      }
      r := answer;
      open := open[r := open[h]];
      made := made + multiset{r};
    }

    /** dup2 onto a descriptor in use. */
    method Dup2(h: int, onto: int, ok: bool)
      requires Valid() && h in open && onto in open
      modifies `open
      ensures Valid()
      ensures open == if ok then old(open)[onto := old(open)[h]] else old(open)
    {
      if ok {
        open := open[onto := open[h]];
      }
    }

    /** Somebody else opens a file. */
    method OpenOther(h: int, file: File) returns (r: int)
      requires Valid()
      modifies `open
      ensures Valid() && r == if Unused(old(open), h) then h else -1
      ensures open == if r == -1 then old(open) else old(open)[h := file]
    {
      if h < 0 || h in open {
        return -1;
      }
      open := open[h := file];
      r := h;
    }

    /** Somebody else closes a descriptor. */
    method CloseOther(h: int)
      requires Valid() && h in open
      modifies `open
      ensures Valid() && open == old(open) - {h}
    {
      open := open - {h};
    }

    /** close of an open descriptor; closing anything else would be a fault of the caller. */
    method Close(h: int)
      requires Valid() && h in open
      modifies `open, `closed
      ensures Valid() && open == old(open) - {h} && closed == old(closed) + multiset{h}
    {
      open := open - {h};
      closed := closed + multiset{h};
    }
  }

  // ----- which descriptors a list of slots holds -----

  ghost function Used(fds: seq<int>): set<int> { set i | 0 <= i < |fds| && fds[i] != -1 :: fds[i] }

  ghost predicate Distinct(fds: seq<int>) {
    forall i, j :: 0 <= i < j < |fds| && fds[i] != -1 ==> fds[i] != fds[j]
  }

  lemma UsedPut(fds: seq<int>, i: nat, h: int)
    requires i < |fds| && fds[i] == -1 && h != -1 && h !in Used(fds) && Distinct(fds)
    ensures Distinct(fds[i := h]) && Used(fds[i := h]) == Used(fds) + {h}
  {
    var now := fds[i := h];
    forall j | 0 <= j < |fds| && fds[j] != -1 ensures fds[j] != h {
      assert fds[j] in Used(fds);
    }
    assert now[i] in Used(now);
    forall x | x in Used(fds) ensures x in Used(now) {
      var j :| 0 <= j < |fds| && fds[j] != -1 && fds[j] == x;
      assert now[j] == x;
    }
  }

  lemma UsedClear(fds: seq<int>, i: nat)
    requires i < |fds| && fds[i] != -1 && Distinct(fds)
    ensures Distinct(fds[i := -1]) && Used(fds[i := -1]) == Used(fds) - {fds[i]}
  {
    var now := fds[i := -1];
    forall x | x in Used(fds) && x != fds[i] ensures x in Used(now) {
      var j :| 0 <= j < |fds| && fds[j] != -1 && fds[j] == x;
      assert now[j] == x;
    }
    forall j | 0 <= j < |now| && now[j] != -1 ensures now[j] in Used(fds) && now[j] != fds[i] {
      assert fds[j] == now[j];
    }
  }

  /** What a slot stands for. */
  datatype Desc = Desc(file: File, flags: int, dir: Option<string>)

  ghost function ViewOf(h: int, flags: int, dir: Option<string>, open: map<int, File>): Option<Desc> {
    if h == -1 || h !in open then None else Some(Desc(open[h], flags, dir))
  }

  ghost function View(fds: seq<int>, flags: seq<int>, dirs: seq<Option<string>>, open: map<int, File>)
    : (v: seq<Option<Desc>>)
    requires |fds| == |flags| == |dirs|
    ensures |v| == |fds| && forall i :: 0 <= i < |fds| ==> v[i] == ViewOf(fds[i], flags[i], dirs[i], open)
  {
    seq(|fds|, i requires 0 <= i < |fds| => ViewOf(fds[i], flags[i], dirs[i], open))
  }

  /** A directory as far as it is copied: whole, or its longest prefix that leaves room for the NUL. */
  function CutDir(dir: Option<string>): (r: Option<string>)
    ensures r.Some? <==> dir.Some?
    ensures dir.Some? && |dir.value| < FILENAME_MAX ==> r == dir
    ensures dir.Some? && |dir.value| >= FILENAME_MAX ==> |r.value| == FILENAME_MAX - 1 && r.value <= dir.value
  {
    if dir.Some? && |dir.value| > FILENAME_MAX - 1 then Some(dir.value[..FILENAME_MAX - 1]) else dir
  }

  /** What a duplicate of slot fd stands for. */
  ghost function Copied(v: seq<Option<Desc>>, fd: int): Option<Desc>
    requires 0 <= fd < |v| && v[fd].Some?
  {
    Some(v[fd].value.(dir := CutDir(v[fd].value.dir)))
  }

  /** fd is the lowest free slot. */
  ghost predicate LowestFree(v: seq<Option<Desc>>, fd: int) {
    0 <= fd < |v| && v[fd] == None && forall j :: 0 <= j < fd ==> v[j] != None
  }

  ghost predicate NoneFree(v: seq<Option<Desc>>) { forall j :: 0 <= j < |v| ==> v[j] != None }

  ghost predicate NoneUsed(v: seq<Option<Desc>>) { forall j :: 0 <= j < |v| ==> v[j] == None }

  lemma UsedMember(fds: seq<int>, i: nat)
    requires i < |fds| && fds[i] != -1
    ensures fds[i] in Used(fds)
  {
  }

  /** Descriptors the slots do not hold may come and go. */
  lemma ViewKept(fds: seq<int>, flags: seq<int>, dirs: seq<Option<string>>, was: map<int, File>, now: map<int, File>)
    requires |fds| == |flags| == |dirs|
    requires forall h :: h in Used(fds) ==> h in was && h in now && was[h] == now[h]
    ensures View(fds, flags, dirs, was) == View(fds, flags, dirs, now)
  {
    forall i | 0 <= i < |fds|
      ensures ViewOf(fds[i], flags[i], dirs[i], was) == ViewOf(fds[i], flags[i], dirs[i], now)
    {
      if fds[i] != -1 {
        UsedMember(fds, i);
      }
    }
  }

  /** Slot i emptied and its descriptor closed. */
  lemma ViewCleared(fds: seq<int>, flags: seq<int>, dirs: seq<Option<string>>, open: map<int, File>, i: nat)
    requires |fds| == |flags| == |dirs| && i < |fds| && fds[i] != -1 && Distinct(fds)
    ensures View(fds[i := -1], flags[i := 0], dirs[i := None], open - {fds[i]}) ==
            View(fds, flags, dirs, open)[i := None]
  {
  }

  /** The descriptor of slot i made to stand for the file of slot j. */
  lemma ViewOverwritten(fds: seq<int>, flags: seq<int>, dirs: seq<Option<string>>, open: map<int, File>, i: nat, j: nat,
                        flag: int, dir: Option<string>)
    requires |fds| == |flags| == |dirs| && i < |fds| && j < |fds| && fds[i] != -1 && Distinct(fds) && fds[j] in open
    ensures View(fds, flags[i := flag], dirs[i := dir], open[fds[i] := open[fds[j]]]) ==
            View(fds, flags, dirs, open)[i := Some(Desc(open[fds[j]], flag, dir))]
  {
  }

  /** The open descriptors after the first i standard streams were duplicated with answers ds. */
  ghost function StreamsOpen(open: map<int, File>, ds: seq<int>, i: nat): map<int, File>
    requires i <= |ds|
  {
    if i == 0 then open
    else
      var m := StreamsOpen(open, ds, i - 1);
      if i - 1 in m && Unused(m, ds[i - 1]) then m[ds[i - 1] := m[i - 1]] else m
  }

  /** Slot i of a new table: a duplicate of the standard stream of its number, where dup gave one. */
  ghost function StreamAt(open: map<int, File>, ds: seq<int>, i: nat): Option<Desc> {
    if i >= |ds| then None
    else
      var m := StreamsOpen(open, ds, i);
      if i in m && Unused(m, ds[i]) then Some(Desc(m[i], 0, None)) else None
  }

  /** Duplicating the streams leaves what was open as it was, so a stream that was open is that file. */
  lemma {:induction false} StreamsKeep(open: map<int, File>, ds: seq<int>, i: nat)
    requires i <= |ds|
    ensures Kept(open.Keys, open, StreamsOpen(open, ds, i))
    ensures i < |ds| && i in open && StreamAt(open, ds, i).Some? ==> StreamAt(open, ds, i).value.file == open[i]
  {
    if i > 0 {
      StreamsKeep(open, ds, i - 1);
    }
  }

  /** What fddup2 answers with EBADF. */
  ghost predicate BadPair(v: seq<Option<Desc>>, oldfd: int, newfd: int) {
    oldfd < 0 || oldfd >= |v| || newfd < -1 || newfd >= |v| || v[oldfd] == None
  }

  /** The error fddup2 answers, 0 for none: bad descriptors, then memory for the directory, then a full
      table, then the host's dup or dup2. */
  ghost function Dup2Error(v: seq<Option<Desc>>, open: map<int, File>, oldfd: int, newfd: int, host: Answers)
    : (e: int)
    ensures e >= 0
  {
    if BadPair(v, oldfd, newfd) then EBADF
    else if oldfd == newfd then 0
    else if v[oldfd].value.dir.Some? && !host.memory then ENOMEM
    else if newfd == -1 && NoneFree(v) then EMFILE
    else if newfd == -1 || v[newfd] == None then (if Unused(open, host.dup) then 0 else EINVAL)
    else if host.dup2 then 0 else EINVAL
  }

  lemma OneMore(made: multiset<int>, adopted: multiset<int>, closed: multiset<int>, owned: set<int>, h: int)
    requires made + adopted == closed + multiset(owned) && h !in owned
    ensures made + multiset{h} + adopted == closed + multiset(owned + {h})
    ensures made + (adopted + multiset{h}) == closed + multiset(owned + {h})
  {
    assert multiset(owned + {h}) == multiset(owned) + multiset{h};
    assert made + multiset{h} + adopted == made + adopted + multiset{h};
  }

  lemma OneLess(made: multiset<int>, adopted: multiset<int>, closed: multiset<int>, owned: set<int>, h: int)
    requires made + adopted == closed + multiset(owned) && h in owned
    ensures made + adopted == closed + multiset{h} + multiset(owned - {h})
  {
    assert multiset(owned) == multiset{h} + multiset(owned - {h});
  }

  class FDTable {
    const kernel: Kernel
    const fds: array<int>
    const dirs: array<Option<string>>
    const flags: array<int>
    const passthrough: bool
    /** Descriptors lent out and not yet released. */
    ghost var borrows: set<int>
    /** Descriptors of somebody else's that fdalloc took over, so far. */
    ghost var adopted: multiset<int>
    /** Open descriptors that are not the table's. */
    ghost var foreign: set<int>

    ghost predicate Valid()
      reads this, kernel, fds, dirs, flags
    {
      && fds.Length == dirs.Length == flags.Length == LINUX_NOFILE && fds != flags
      && kernel.Valid() && Distinct(fds[..])
      && (forall i :: 0 <= i < LINUX_NOFILE && fds[i] == -1 ==> dirs[i] == None)
      && Conserved() && Balanced()
    }

    /** What was made or taken over has been closed, or is still in a slot or borrowed. */
    ghost predicate Balanced()
      reads this, kernel, fds
    {
      kernel.made + adopted == kernel.closed + multiset(Used(fds[..]) + borrows)
    }

    /** Every open descriptor is in a slot, borrowed, or somebody else's, and in one place only. */
    ghost predicate Conserved()
      reads this, kernel, fds
    {
      && kernel.open.Keys == Used(fds[..]) + borrows + foreign
      && Used(fds[..]) !! borrows && Used(fds[..]) !! foreign && borrows !! foreign
    }

    ghost function Slots(): (v: seq<Option<Desc>>)
      requires Valid()
      reads this, kernel, fds, dirs, flags
      ensures |v| == LINUX_NOFILE
    {
      View(fds[..], flags[..], dirs[..], kernel.open)
    }

    lemma SlotFree(i: nat)
      requires Valid() && i < LINUX_NOFILE
      ensures Slots()[i] == None <==> fds[i] == -1
      ensures fds[i] != -1 ==> fds[i] in kernel.open && fds[i] >= 0
                               && Slots()[i] == Some(Desc(kernel.open[fds[i]], flags[i], dirs[i]))
    {
      if fds[i] != -1 {
        assert fds[..][i] in Used(fds[..]);
      }
    }

    /** dup of a host descriptor; the new one is lent to the caller. */
    method DupHost(h: int, answer: int) returns (r: int)
      requires Valid()
      modifies kernel, `borrows
      ensures Valid() && Slots() == old(Slots())
      ensures r == if h in old(kernel.open) && Unused(old(kernel.open), answer) then answer else -1
      ensures borrows == if r == -1 then old(borrows) else old(borrows) + {r}
      ensures kernel.open == if r == -1 then old(kernel.open) else old(kernel.open)[r := old(kernel.open)[h]]
      ensures r !in old(borrows) && (forall i :: 0 <= i < LINUX_NOFILE && r >= 0 ==> fds[i] != r)
    {
      ghost var used := Used(fds[..]);
      r := kernel.Dup(h, answer);
      if r != -1 {
        OneMore(old(kernel.made), adopted, kernel.closed, used + borrows, r);
        assert used + (borrows + {r}) == used + borrows + {r};
        borrows := borrows + {r};
      }
      assert fds[..] == old(fds[..]);
      ViewKept(fds[..], flags[..], dirs[..], old(kernel.open), kernel.open);
      forall i | 0 <= i < LINUX_NOFILE && r >= 0 ensures fds[i] != r {
        assert fds[i] != -1 ==> fds[..][i] in used;
      }
    }

    /** A lent descriptor becomes the content of a free slot. */
    method Put(i: nat, h: int, flag: int, dir: Option<string>)
      requires Valid() && i < LINUX_NOFILE && fds[i] == -1 && h in borrows
      modifies fds, flags, dirs, `borrows
      ensures Valid() && borrows == old(borrows) - {h}
      ensures Slots() == old(Slots())[i := Some(Desc(kernel.open[h], flag, dir))]
    {
      ghost var was := fds[..];
      UsedPut(was, i, h);
      fds[i], flags[i], dirs[i] := h, flag, dir;
      assert fds[..] == was[i := h];
      assert Used(was) + borrows == Used(fds[..]) + (borrows - {h});
      borrows := borrows - {h};
    }

    /** Closes the descriptor of a slot and empties it. */
    method Clear(i: nat)
      requires Valid() && i < LINUX_NOFILE && fds[i] != -1
      modifies fds, flags, dirs, kernel
      ensures Valid() && fds[i] == -1
      ensures Slots() == old(Slots())[i := None]
      ensures kernel.open == old(kernel.open) - {old(fds[i])}
      ensures Kept(borrows + foreign, old(kernel.open), kernel.open)
    {
      ghost var was := fds[..];
      SlotFree(i);
      UsedClear(was, i);
      UsedMember(was, i);
      OneLess(kernel.made, adopted, kernel.closed, Used(was) + borrows, was[i]);
      assert Used(was) + borrows - {was[i]} == Used(was) - {was[i]} + borrows;
      kernel.Close(fds[i]);
      fds[i], flags[i], dirs[i] := -1, 0, None;
      assert fds[..] == was[i := -1];
      ViewCleared(was, old(flags[..]), old(dirs[..]), old(kernel.open), i);
    }

    /** fdinit: the table starts with duplicates of the host's standard streams, where dup gave them. */
    constructor (kernel: Kernel, passthrough: bool, ds: seq<int>)
      requires kernel.Valid() && kernel.made == kernel.closed && |ds| == 3
      modifies kernel
      ensures this.kernel == kernel && this.passthrough == passthrough
      ensures Valid() && fresh(fds) && fresh(dirs) && fresh(flags)
      ensures borrows == {} && foreign == old(kernel.open.Keys) && adopted == multiset{}
      ensures forall i :: 0 <= i < LINUX_NOFILE ==> Slots()[i] == StreamAt(old(kernel.open), ds, i)
      ensures kernel.open == StreamsOpen(old(kernel.open), ds, 3)
      ensures Kept(foreign, old(kernel.open), kernel.open)
    {
      this.kernel, this.passthrough := kernel, passthrough;
      fds := new int[LINUX_NOFILE](i => -1);
      dirs := new Option<string>[LINUX_NOFILE](i => None);
      flags := new int[LINUX_NOFILE](i => 0);
      borrows, foreign, adopted := {}, kernel.open.Keys, multiset{};
      new;
      assert Used(fds[..]) == {};
      OpenStreams(ds);
      StreamsKeep(old(kernel.open), ds, 3);
    }

    method OpenStreams(ds: seq<int>)
      requires Valid() && NoneUsed(Slots()) && borrows == {} && |ds| == 3
      modifies kernel, fds, flags, dirs, `borrows
      ensures Valid() && borrows == {}
      ensures forall i :: 0 <= i < LINUX_NOFILE ==> Slots()[i] == StreamAt(old(kernel.open), ds, i)
      ensures kernel.open == StreamsOpen(old(kernel.open), ds, 3)
    {
      hide Distinct, Used, View, Conserved, Balanced, LowestFree, Valid;
      ghost var open := kernel.open;
      for i := 0 to 3
        invariant Valid() && borrows == {} && kernel.open == StreamsOpen(open, ds, i)
        invariant forall j :: 0 <= j < i ==> Slots()[j] == StreamAt(open, ds, j)
        invariant forall j :: i <= j < LINUX_NOFILE ==> Slots()[j] == None
      {
        SlotFree(i);
        var h := DupHost(i, ds[i]);
        if h != -1 {
          SlotFree(i);
          Put(i, h, 0, None);
        }
      }
    }

    // ----- the operations -----

    /** The lowest free slot, or -1. */
    method FindFree() returns (fd: int)
      requires Valid()
      ensures fd == -1 ==> NoneFree(Slots())
      ensures fd != -1 ==> LowestFree(Slots(), fd) && fds[fd] == -1
    {
      for i := 0 to LINUX_NOFILE
        invariant forall j :: 0 <= j < i ==> Slots()[j] != None
      {
        SlotFree(i);
        if fds[i] == -1 {
          return i;
        }
      }
      return -1;
    }

    /** fdalloc: a descriptor of the caller's goes into the lowest free slot. */
    method Alloc(hostFd: int, dir: Option<string>, flag: int) returns (r: int)
      requires Valid() && hostFd in foreign
      modifies fds, flags, dirs, `foreign, `borrows, `adopted
      ensures Valid() && borrows == old(borrows)
      ensures adopted == old(adopted) + if !passthrough && r >= 0 then multiset{hostFd} else multiset{}
      ensures passthrough ==> r == hostFd && Slots() == old(Slots()) && foreign == old(foreign)
      ensures !passthrough && r >= 0 ==>
                && LowestFree(old(Slots()), r) && foreign == old(foreign) - {hostFd}
                && Slots() == old(Slots())[r := Some(Desc(kernel.open[hostFd], flag, dir))]
      ensures !passthrough && r < 0 ==>
                r == -EMFILE && NoneFree(old(Slots())) && Slots() == old(Slots()) && foreign == old(foreign)
    {
      if passthrough {
        return hostFd;
      }
      r := FindFree();
      if r == -1 {
        return -EMFILE;
      }
      OneMore(kernel.made, adopted, kernel.closed, Used(fds[..]) + borrows, hostFd);
      assert Used(fds[..]) + (borrows + {hostFd}) == Used(fds[..]) + borrows + {hostFd};
      foreign, borrows, adopted := foreign - {hostFd}, borrows + {hostFd}, adopted + multiset{hostFd};
      Put(r, hostFd, flag, dir);
    }

    /** fdacquire: a private duplicate, the flags and whether it is a directory. */
    method Acquire(fd: int, answer: int) returns (r: int, flag: int, isdir: bool)
      requires Valid()
      modifies kernel, `borrows
      ensures Valid() && Slots() == old(Slots()) && foreign == old(foreign)
      ensures Kept(old(borrows + foreign), old(kernel.open), kernel.open)
      ensures passthrough ==>
                r == fd && borrows == old(borrows) && kernel.open == old(kernel.open) && flag == 0 && !isdir
      ensures !passthrough ==>
                && r == (if 0 <= fd < LINUX_NOFILE && Slots()[fd].Some? && Unused(old(kernel.open), answer)
                         then answer else -1)
                && borrows == (if r == -1 then old(borrows) else old(borrows) + {r})
                && kernel.open == (if r == -1 then old(kernel.open)
                                   else old(kernel.open)[r := old(Slots())[fd].value.file])
                && (if 0 <= fd < LINUX_NOFILE && Slots()[fd].Some?
                    then flag == Slots()[fd].value.flags && isdir == Slots()[fd].value.dir.Some?
                    else flag == 0 && !isdir)
    {
      flag, isdir := 0, false;
      if passthrough {
        return fd, flag, isdir;
      }
      if fd < 0 || fd >= LINUX_NOFILE {
        return -1, flag, isdir;
      }
      SlotFree(fd);
      if fds[fd] == -1 {
        return -1, flag, isdir;
      }
      flag, isdir := flags[fd], dirs[fd].Some?;
      r := DupHost(fds[fd], answer);
    }

    /** fdrelease of what Acquire gave. */
    method Release(hostFd: int)
      requires Valid() && (!passthrough && hostFd >= 0 ==> hostFd in borrows)
      modifies kernel, `borrows
      ensures Valid() && Slots() == old(Slots()) && foreign == old(foreign)
      ensures borrows == if passthrough || hostFd < 0 then old(borrows) else old(borrows) - {hostFd}
      ensures kernel.open == if passthrough || hostFd < 0 then old(kernel.open) else old(kernel.open) - {hostFd}
    {
      if passthrough {
        return;
      }
      if hostFd >= 0 {
        OneLess(kernel.made, adopted, kernel.closed, Used(fds[..]) + borrows, hostFd);
        assert Used(fds[..]) + borrows - {hostFd} == Used(fds[..]) + (borrows - {hostFd});
        kernel.Close(hostFd);
        borrows := borrows - {hostFd};
        assert fds[..] == old(fds[..]);
        ViewKept(fds[..], flags[..], dirs[..], old(kernel.open), kernel.open);
      }
    }

    /** fddup2: newfd, or for -1 the lowest free slot, comes to stand for the file of oldfd, with its flags
        and its directory as far as that is copied. */
    method Dup2(oldfd: int, newfd: int, host: Answers) returns (r: int)
      requires Valid()
      modifies fds, flags, dirs, kernel, `borrows
      ensures Valid() && borrows == old(borrows)
      ensures Kept(borrows + foreign, old(kernel.open), kernel.open)
      ensures var e := Dup2Error(old(Slots()), old(kernel.open), oldfd, newfd, host);
              if e != 0 then r == -e else r >= 0
      ensures r >= 0 && oldfd == newfd ==> r == newfd
      ensures r < 0 || oldfd == newfd ==> Slots() == old(Slots())
      ensures r >= 0 && oldfd != newfd ==>
                && !BadPair(old(Slots()), oldfd, newfd) && 0 <= r < LINUX_NOFILE
                && (if newfd == -1 then LowestFree(old(Slots()), r) else r == newfd)
                && Slots() == old(Slots())[r := Copied(old(Slots()), oldfd)]
    {
      if oldfd < 0 || oldfd >= LINUX_NOFILE || newfd < -1 || newfd >= LINUX_NOFILE {
        return -EBADF;
      }
      SlotFree(oldfd);
      var koldfd := fds[oldfd];
      if koldfd == -1 {
        return -EBADF;
      }
      if oldfd == newfd {
        return newfd;
      }
      if dirs[oldfd].Some? && !host.memory {
        return -ENOMEM;
      }
      var slot := newfd;
      if newfd == -1 {
        slot := FindFree();
        if slot == -1 {
          return -EMFILE;
        }
      }
      SlotFree(slot);
      if fds[slot] == -1 {
        r := DupSlot(oldfd, slot, host.dup);
      } else {
        r := OverwriteSlot(oldfd, slot, host.dup2);
      }
    }

    /** A duplicate for a free slot. */
    method DupSlot(oldfd: nat, slot: nat, answer: int) returns (r: int)
      requires Valid() && oldfd < LINUX_NOFILE && slot < LINUX_NOFILE && fds[oldfd] != -1 && fds[slot] == -1
      modifies fds, flags, dirs, kernel, `borrows
      ensures Valid() && borrows == old(borrows) && old(Slots())[oldfd].Some?
      ensures Kept(borrows + foreign, old(kernel.open), kernel.open)
      ensures r == if Unused(old(kernel.open), answer) then slot else -EINVAL
      ensures r == -EINVAL ==> Slots() == old(Slots())
      ensures r == slot ==> Slots() == old(Slots())[slot := Copied(old(Slots()), oldfd)]
    {
      hide Distinct, Used, View, Conserved, Balanced;
      SlotFree(oldfd);
      var knewfd := DupHost(fds[oldfd], answer);
      if knewfd == -1 {
        return -EINVAL;
      }
      Put(slot, knewfd, flags[oldfd], CutDir(dirs[oldfd]));
      r := slot;
    }

    /** dup2 onto the descriptor of a slot in use. */
    method OverwriteSlot(oldfd: nat, slot: nat, ok: bool) returns (r: int)
      requires Valid() && oldfd < LINUX_NOFILE && slot < LINUX_NOFILE && oldfd != slot
      requires fds[oldfd] != -1 && fds[slot] != -1
      modifies flags, dirs, kernel
      ensures Valid() && old(Slots())[oldfd].Some?
      ensures Kept(borrows + foreign, old(kernel.open), kernel.open)
      ensures r == if ok then slot else -EINVAL
      ensures !ok ==> Slots() == old(Slots())
      ensures ok ==> Slots() == old(Slots())[slot := Copied(old(Slots()), oldfd)]
    {
      UsedMember(fds[..], slot);
      hide Distinct, Used, View;
      SlotFree(oldfd);
      SlotFree(slot);
      ghost var open := kernel.open;
      kernel.Dup2(fds[oldfd], fds[slot], ok);
      if !ok {
        assert kernel.open.Keys == open.Keys;
        return -EINVAL;
      }
      ViewOverwritten(fds[..], flags[..], dirs[..], open, slot, oldfd, flags[oldfd], CutDir(dirs[oldfd]));
      ghost var f, d := flags[..], dirs[..];
      dirs[slot] := CutDir(dirs[oldfd]);
      flags[slot] := flags[oldfd];
      assert flags[..] == f[slot := f[oldfd]] && dirs[..] == d[slot := CutDir(d[oldfd])];
      assert kernel.open.Keys == open.Keys;
      r := slot;
    }

    /** fdclose. */
    method CloseFd(fd: int) returns (ok: bool)
      requires Valid()
      modifies fds, flags, dirs, kernel
      ensures Valid() && borrows == old(borrows) && foreign == old(foreign)
      ensures passthrough ==> ok && Slots() == old(Slots()) && kernel.open == old(kernel.open)
      ensures !passthrough ==> (ok <==> 0 <= fd < LINUX_NOFILE && old(Slots())[fd].Some?)
      ensures !passthrough ==> Slots() == if ok then old(Slots())[fd := None] else old(Slots())
      ensures Kept(borrows + foreign, old(kernel.open), kernel.open)
    {
      if passthrough {
        return true;
      }
      if fd < 0 || fd >= LINUX_NOFILE {
        return false;
      }
      SlotFree(fd);
      if fds[fd] == -1 {
        return false;
      }
      Clear(fd);
      return true;
    }

    /** fdfree: afterwards no slot is left, and nothing but borrows and other people's descriptors is open. */
    method FreeAll()
      requires Valid()
      modifies fds, flags, dirs, kernel
      ensures Valid() && NoneUsed(Slots()) && borrows == old(borrows) && foreign == old(foreign)
      ensures kernel.open.Keys == borrows + foreign && Kept(borrows + foreign, old(kernel.open), kernel.open)
    {
      for i := 0 to LINUX_NOFILE
        invariant Valid() && borrows == old(borrows) && foreign == old(foreign)
        invariant forall j :: 0 <= j < i ==> Slots()[j] == None
        invariant Kept(borrows + foreign, old(kernel.open), kernel.open)
      {
        SlotFree(i);
        if fds[i] == -1 {
          continue;
        }
        Clear(i);
      }
      forall i | 0 <= i < LINUX_NOFILE ensures fds[..][i] == -1 {
        SlotFree(i);
      }
      assert Used(fds[..]) == {};
    }

    // ----- what others do meanwhile -----

    /** Somebody else opens a file. */
    method OthersOpen(h: int, file: File) returns (r: int)
      requires Valid()
      modifies kernel`open, `foreign
      ensures Valid() && Slots() == old(Slots()) && r == (if Unused(old(kernel.open), h) then h else -1)
      ensures kernel.open == if r == -1 then old(kernel.open) else old(kernel.open)[h := file]
      ensures foreign == if r == -1 then old(foreign) else old(foreign) + {h}
    {
      r := kernel.OpenOther(h, file);
      if r != -1 {
        foreign := foreign + {h};
      }
      ViewKept(fds[..], flags[..], dirs[..], old(kernel.open), kernel.open);
    }

    /** Somebody else closes a descriptor of theirs. */
    method OthersClose(h: int)
      requires Valid() && h in foreign
      modifies kernel`open, `foreign
      ensures Valid() && Slots() == old(Slots())
      ensures kernel.open == old(kernel.open) - {h} && foreign == old(foreign) - {h}
    {
      kernel.CloseOther(h);
      foreign := foreign - {h};
      ViewKept(fds[..], flags[..], dirs[..], old(kernel.open), kernel.open);
    }
  }

  // ----- the life of a table -----

  /** A call on the table, or somebody else opening or closing a descriptor. */
  datatype Event =
    | Opened(h: int, file: File)
    | Closed(h: int)
    | Allocated(h: int, dir: Option<string>, flag: int)
    | Acquired(fd: int, answer: int)
    | Released(h: int)
    | Duplicated(oldfd: int, newfd: int, host: Answers)
    | ClosedSlot(fd: int)

  /** What the slots stand for, the open descriptors, and which of them are other people's or lent. */
  datatype Snap = Snap(slots: seq<Option<Desc>>, open: map<int, File>, theirs: set<int>, lent: set<int>)

  ghost function Snapshot(t: FDTable): Snap
    requires t.Valid()
    reads t, t.kernel, t.fds, t.dirs, t.flags
  {
    Snap(t.Slots(), t.kernel.open, t.foreign, t.borrows)
  }

  /** Other people open, close or hand over a descriptor; what is not theirs they cannot give or close. */
  ghost predicate OthersStep(a: Snap, ev: Event, r: int, b: Snap, passthrough: bool)
    requires ev.Opened? || ev.Closed? || ev.Allocated?
  {
    match ev
    case Opened(h, file) =>
      if Unused(a.open, h) then r == h && b == a.(open := a.open[h := file], theirs := a.theirs + {h})
      else r == -1 && b == a
    case Closed(h) =>
      if h in a.theirs then r == 0 && b == a.(open := a.open - {h}, theirs := a.theirs - {h})
      else r == -1 && b == a
    case Allocated(h, dir, flag) =>
      if h !in a.theirs then r == -1 && b == a
      else if passthrough then r == h && b == a
      else if NoneFree(a.slots) then r == -EMFILE && b == a
      else
        && LowestFree(a.slots, r) && h in a.open
        && b == a.(slots := a.slots[r := Some(Desc(a.open[h], flag, dir))], theirs := a.theirs - {h})
  }

  /** A borrow of its own for the file of a slot, or its release. */
  ghost predicate LendingStep(a: Snap, ev: Event, r: int, b: Snap, passthrough: bool)
    requires ev.Acquired? || ev.Released?
  {
    match ev
    case Acquired(fd, answer) =>
      if passthrough then r == fd && b == a
      else if 0 <= fd < |a.slots| && a.slots[fd].Some? && Unused(a.open, answer) then
        r == answer && b == a.(open := a.open[answer := a.slots[fd].value.file], lent := a.lent + {answer})
      else r == -1 && b == a
    case Released(h) =>
      if h in a.lent then r == 0 && b == a.(open := a.open - {h}, lent := a.lent - {h})
      else r == -1 && b == a
  }

  /** A duplication or a close changes one slot; lent and other people's descriptors stay as they are. */
  ghost predicate SlotStep(a: Snap, ev: Event, r: int, b: Snap, passthrough: bool)
    requires ev.Duplicated? || ev.ClosedSlot?
  {
    && b.theirs == a.theirs && b.lent == a.lent && Kept(a.lent + a.theirs, a.open, b.open)
    && match ev
       case Duplicated(oldfd, newfd, host) =>
         var e := Dup2Error(a.slots, a.open, oldfd, newfd, host);
         if e != 0 then r == -e && b.slots == a.slots
         else if oldfd == newfd then r == newfd && b.slots == a.slots
         else
           && !BadPair(a.slots, oldfd, newfd) && 0 <= r < |a.slots|
           && (if newfd == -1 then LowestFree(a.slots, r) else r == newfd)
           && b.slots == a.slots[r := Copied(a.slots, oldfd)]
       case ClosedSlot(fd) =>
         if passthrough then r == 0 && b.slots == a.slots
         else if 0 <= fd < |a.slots| && a.slots[fd].Some? then r == 0 && b.slots == a.slots[fd := None]
         else r == -1 && b.slots == a.slots
  }

  ghost predicate Step(a: Snap, ev: Event, r: int, b: Snap, passthrough: bool) {
    if ev.Opened? || ev.Closed? || ev.Allocated? then OthersStep(a, ev, r, b, passthrough)
    else if ev.Acquired? || ev.Released? then LendingStep(a, ev, r, b, passthrough)
    else SlotStep(a, ev, r, b, passthrough)
  }

  /** The descriptor fdalloc took over. */
  ghost function TakenOver(ev: Event, r: int, passthrough: bool): multiset<int> {
    if ev.Allocated? && r >= 0 && !passthrough then multiset{ev.h} else multiset{}
  }

  ghost function AllTakenOver(events: seq<Event>, rs: seq<int>, passthrough: bool): multiset<int>
    requires |events| == |rs|
  {
    if rs == [] then multiset{}
    else
      var n := |rs| - 1;
      AllTakenOver(events[..n], rs[..n], passthrough) + TakenOver(events[n], rs[n], passthrough)
  }

  /** What a caller knows: which descriptors are other people's, and which are lent. */
  ghost predicate Tracks(t: FDTable, theirs: set<int>, lent: set<int>)
    reads t, t.kernel, t.fds, t.dirs, t.flags
  {
    t.Valid() && theirs == t.foreign && lent == t.borrows && (t.passthrough ==> lent == {})
  }

  lemma TracksForeign(t: FDTable, theirs: set<int>, lent: set<int>)
    requires Tracks(t, theirs, lent)
    ensures t.foreign == theirs
  {
  }

  lemma OwnersApart(t: FDTable)
    requires t.Valid()
    ensures t.borrows !! t.foreign
    ensures forall h :: h in t.borrows || h in t.foreign ==> h in t.kernel.open && h >= 0
  {
    assert forall h :: h in t.borrows || h in t.foreign ==> h in Used(t.fds[..]) + t.borrows + t.foreign;
  }

  method PerformOthers(t: FDTable, theirs: set<int>, ghost lent: set<int>, ev: Event)
    returns (r: int, now: set<int>)
    requires Tracks(t, theirs, lent) && (ev.Opened? || ev.Closed? || ev.Allocated?)
    modifies t, t.kernel, t.fds, t.dirs, t.flags
    ensures Tracks(t, now, lent)
    ensures OthersStep(old(Snapshot(t)), ev, r, Snapshot(t), t.passthrough)
    ensures t.adopted == old(t.adopted) + TakenOver(ev, r, t.passthrough)
  {
    OwnersApart(t);
    hide FDTable.Valid, FDTable.Slots;
    r, now := -1, theirs;
    match ev
    case Opened(h, file) =>
      r := t.OthersOpen(h, file);
      if r >= 0 {
        now := theirs + {h};
      }
    case Closed(h) =>
      if h in theirs {
        t.OthersClose(h);
        r, now := 0, theirs - {h};
      }
    case Allocated(h, dir, flag) =>
      if h in theirs {
        r := t.Alloc(h, dir, flag);
        if r >= 0 && !t.passthrough {
          now := theirs - {h};
        }
      }
  }

  method PerformLending(t: FDTable, ghost theirs: set<int>, lent: set<int>, ev: Event)
    returns (r: int, now: set<int>)
    requires Tracks(t, theirs, lent) && (ev.Acquired? || ev.Released?)
    modifies t, t.kernel, t.fds, t.dirs, t.flags
    ensures Tracks(t, theirs, now) && t.adopted == old(t.adopted)
    ensures LendingStep(old(Snapshot(t)), ev, r, Snapshot(t), t.passthrough)
  {
    OwnersApart(t);
    hide FDTable.Valid, FDTable.Slots;
    r, now := -1, lent;
    match ev
    case Acquired(fd, answer) =>
      var flag, isdir;
      r, flag, isdir := t.Acquire(fd, answer);
      if r != -1 && !t.passthrough {
        now := lent + {r};
      }
    case Released(h) =>
      if h in lent {
        t.Release(h);
        r, now := 0, lent - {h};
      }
  }

  method PerformSlot(t: FDTable, ghost theirs: set<int>, ghost lent: set<int>, ev: Event) returns (r: int)
    requires Tracks(t, theirs, lent) && (ev.Duplicated? || ev.ClosedSlot?)
    modifies t, t.kernel, t.fds, t.dirs, t.flags
    ensures Tracks(t, theirs, lent) && t.adopted == old(t.adopted)
    ensures SlotStep(old(Snapshot(t)), ev, r, Snapshot(t), t.passthrough)
  {
    hide FDTable.Valid, FDTable.Slots, Dup2Error, BadPair, LowestFree, NoneFree, Copied;
    match ev
    case Duplicated(oldfd, newfd, host) => r := t.Dup2(oldfd, newfd, host);
    case ClosedSlot(fd) =>
      var ok := t.CloseFd(fd);
      r := if ok then 0 else -1;
  }

  method Perform(t: FDTable, theirs: set<int>, lent: set<int>, ev: Event)
    returns (r: int, theirsNow: set<int>, lentNow: set<int>)
    requires Tracks(t, theirs, lent)
    modifies t, t.kernel, t.fds, t.dirs, t.flags
    ensures Tracks(t, theirsNow, lentNow)
    ensures Step(old(Snapshot(t)), ev, r, Snapshot(t), t.passthrough)
    ensures t.adopted == old(t.adopted) + TakenOver(ev, r, t.passthrough)
  {
    hide FDTable.Valid, OthersStep, LendingStep, SlotStep, Snapshot;
    theirsNow, lentNow := theirs, lent;
    if ev.Opened? || ev.Closed? || ev.Allocated? {
      r, theirsNow := PerformOthers(t, theirs, lent, ev);
    } else if ev.Acquired? || ev.Released? {
      r, lentNow := PerformLending(t, theirs, lent, ev);
    } else {
      r := PerformSlot(t, theirs, lent, ev);
    }
  }

  /** A trace of snapshots, each from the one before by its event. */
  ghost predicate Traces(trace: seq<Snap>, events: seq<Event>, rs: seq<int>, passthrough: bool) {
    && |trace| == |events| + 1 && |rs| == |events|
    && forall i :: 0 <= i < |events| ==> Step(trace[i], events[i], rs[i], trace[i + 1], passthrough)
  }

  lemma TracesMore(trace: seq<Snap>, events: seq<Event>, rs: seq<int>, passthrough: bool, ev: Event, r: int, b: Snap)
    requires Traces(trace, events, rs, passthrough) && Step(trace[|events|], ev, r, b, passthrough)
    ensures Traces(trace + [b], events + [ev], rs + [r], passthrough)
    ensures (trace + [b])[0] == trace[0] && (trace + [b])[|events| + 1] == b
    ensures AllTakenOver(events + [ev], rs + [r], passthrough) ==
            AllTakenOver(events, rs, passthrough) + TakenOver(ev, r, passthrough)
  {
    hide Step, TakenOver;
    assert (events + [ev])[..|events|] == events && (rs + [r])[..|rs|] == rs;
  }

  /** All events in order. */
  method PerformAll(t: FDTable, theirs: set<int>, events: seq<Event>)
    returns (rs: seq<int>, ghost trace: seq<Snap>, theirsNow: set<int>, lent: set<int>)
    requires Tracks(t, theirs, {})
    modifies t, t.kernel, t.fds, t.dirs, t.flags
    ensures Tracks(t, theirsNow, lent)
    ensures Traces(trace, events, rs, t.passthrough)
    ensures trace[0] == old(Snapshot(t)) && trace[|events|] == Snapshot(t)
    ensures t.adopted == old(t.adopted) + AllTakenOver(events, rs, t.passthrough)
    decreases |events|
  {
    hide FDTable.Valid, Step, TakenOver, Snapshot;
    if events == [] {
      return [], [Snapshot(t)], theirs, {};
    }
    var n := |events| - 1;
    rs, trace, theirsNow, lent := PerformAll(t, theirs, events[..n]);
    hide Traces, AllTakenOver;
    var r;
    r, theirsNow, lent := Perform(t, theirsNow, lent, events[n]);
    TracesMore(trace, events[..n], rs, t.passthrough, events[n], r, Snapshot(t));
    assert events == events[..n] + [events[n]];
    rs, trace := rs + [r], trace + [Snapshot(t)];
  }

  /** The snapshot of a new table. */
  ghost predicate Starts(a: Snap, open: map<int, File>, ds: seq<int>) {
    && |ds| == 3 && |a.slots| == LINUX_NOFILE && a.open == StreamsOpen(open, ds, 3)
    && a.theirs == open.Keys && a.lent == {}
    && forall i :: 0 <= i < LINUX_NOFILE ==> a.slots[i] == StreamAt(open, ds, i)
  }

  /** The descriptors hs and their files. */
  ghost function Only(open: map<int, File>, hs: set<int>): map<int, File> { map h | h in open && h in hs :: open[h] }

  /** From fdinit to fdfree and the last release, whatever the table is asked and whatever others open and
      close meanwhile: each event does what it should, in the end exactly the descriptors of others are
      open, each for the file it had, and every descriptor that the table made or took over was closed
      once for each time it was made or taken over. */
  method Lifetime(kernel: Kernel, passthrough: bool, ds: seq<int>, events: seq<Event>)
    returns (rs: seq<int>, ghost trace: seq<Snap>)
    requires kernel.Valid() && kernel.made == kernel.closed == multiset{} && |ds| == 3
    modifies kernel
    ensures Traces(trace, events, rs, passthrough) && Starts(trace[0], old(kernel.open), ds)
    ensures kernel.open == Only(trace[|events|].open, trace[|events|].theirs)
    ensures kernel.closed == kernel.made + AllTakenOver(events, rs, passthrough)
  {
    var theirs := kernel.open.Keys;
    var t := new FDTable(kernel, passthrough, ds);
    hide FDTable.Slots, StreamsOpen, StreamAt, Distinct, FDTable.Conserved, FDTable.Balanced, Traces;
    var lent;
    rs, trace, theirs, lent := PerformAll(t, theirs, events);
    TracksForeign(t, theirs, lent);
    hide Tracks, FDTable.Valid;
    Finish(t, theirs, lent);
  }

  method ReleaseAll(t: FDTable, ghost theirs: set<int>, lent: set<int>)
    requires Tracks(t, theirs, lent)
    modifies t, t.kernel, t.fds, t.dirs, t.flags
    ensures Tracks(t, theirs, {}) && t.adopted == old(t.adopted)
    ensures Kept(theirs, old(t.kernel.open), t.kernel.open)
  {
    hide FDTable.Valid;
    var left := lent;
    while left != {}
      invariant Tracks(t, theirs, left) && t.adopted == old(t.adopted)
      invariant Kept(theirs, old(t.kernel.open), t.kernel.open)
      decreases left
    {
      var h := PickMember(left);
      OwnersApart(t);
      var _, now := PerformLending(t, theirs, left, Released(h));
      left := now;
    }
  }

  /** The last releases and fdfree. */
  method Finish(t: FDTable, ghost theirs: set<int>, lent: set<int>)
    requires Tracks(t, theirs, lent)
    modifies t, t.kernel, t.fds, t.dirs, t.flags
    ensures t.kernel.open == Only(old(t.kernel.open), theirs)
    ensures t.kernel.closed == t.kernel.made + old(t.adopted)
  {
    ghost var open := t.kernel.open;
    OwnersApart(t);
    ReleaseAll(t, theirs, lent);
    t.FreeAll();
    NoneOwned(t);
    hide FDTable.Valid, FDTable.Slots;
    assert t.borrows + t.foreign == theirs;
    OnlyThose(open, t.kernel.open, theirs);
  }

  lemma OnlyThose(was: map<int, File>, now: map<int, File>, hs: set<int>)
    requires now.Keys == hs && (forall h :: h in hs ==> h in was) && Kept(hs, was, now)
    ensures now == Only(was, hs)
  {
    var o := Only(was, hs);
    assert forall h :: h in hs ==> h in o && o[h] == now[h];
    assert forall h :: h in o ==> h in hs;
    assert o.Keys == now.Keys;
  }

  lemma NoneOwned(t: FDTable)
    requires t.Valid() && t.borrows == {} && t.kernel.open.Keys == t.foreign
    ensures t.kernel.closed == t.kernel.made + t.adopted
  {
    assert Used(t.fds[..]) + t.borrows == {};
  }
}
