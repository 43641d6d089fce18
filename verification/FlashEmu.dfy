/** The slot operations of modules/flashemu/flashemu.c over a kernel with a limited, unpredictable supply of
    descriptors. Each is shown to do what a machine does that never closes a file behind its owner's back. */
module FlashEmu {
  import opened Bytes
  import opened Slots
  import opened Words

  type Files = map<string, seq<byte>>

  /** 0x80010018 as a signed int: no more descriptors. */
  const NO_HANDLES: int := 0x80010018 - 0x1_0000_0000

  datatype Whence = SeekSet | SeekCur | SeekEnd

  function Content(files: Files, path: string): seq<byte> { if path in files then files[path] else [] }

  /** What a read of len bytes at position p delivers. */
  function ReadAt(c: seq<byte>, p: nat, len: nat): seq<byte> {
    if |c| <= p then [] else if p + len <= |c| then c[p..p + len] else c[p..]
  }

  /** What a write at position p leaves; a gap is filled with zeros. */
  function WriteAt(c: seq<byte>, p: nat, data: seq<byte>): seq<byte> {
    var d := if |c| < p then c + Zeros(p - |c|) else c;
    d[..p] + data + (if p + |data| <= |d| then d[p + |data|..] else [])
  }

  function Target(files: Files, path: string, pos: nat, ofs: nat, whence: Whence): nat {
    match whence
    case SeekSet => ofs
    case SeekCur => pos + ofs
    case SeekEnd => |Content(files, path)| + ofs
  }

  // ----- The environment

  /** One attempt to open a file, and the kernel's answer. */
  datatype Try = Try(path: string, flags: int, answer: int)

  /** The attempts of one opening: any number for which there was no descriptor, and then one with another answer. */
  ghost predicate Tried(was: seq<Try>, now: seq<Try>, path: string, flags: int, fd: int) {
    fd != NO_HANDLES && exists n: nat :: now == was + Refused(n, path, flags) + [Try(path, flags, fd)]
  }

  function Refused(n: nat, path: string, flags: int): seq<Try> { seq(n, _ => Try(path, flags, NO_HANDLES)) }

  /** The kernel. Any call may fail; running out of descriptors is reported finitely often in a row. */
  class Kernel {
    var open: Descriptors
    var files: Files
    var patience: nat
    ghost var tries: seq<Try>

    constructor ()
      ensures open == map[]
    {
      open, files, patience := map[], map[], 0;
      tries := [];
    }

    /** sceIoOpen and sceIoDopen. Opening for writing may change files; no descriptor is 0. */
    method Open(path: string, flags: int) returns (fd: int)
      modifies this
      ensures fd != 0 && patience <= old(patience) && tries == old(tries) + [Try(path, flags, fd)]
      ensures fd == NO_HANDLES ==> patience < old(patience)
      ensures 0 < fd ==> fd !in old(open) && open == old(open)[fd := Handle(path, flags, 0)]
      ensures fd < 0 ==> open == old(open) && files == old(files)
      ensures flags == RDONLY || flags == DIRECTORY ==> files == old(files)
    {
      var answer: int := *;
      if 0 < patience {
        patience := patience - 1;
        fd := NO_HANDLES;
      } else if 0 < answer && answer !in open {
        fd := answer;
        open := open[fd := Handle(path, flags, 0)];
        if flags != RDONLY && flags != DIRECTORY {
          files := *;
        }
      } else {
        fd := -1;
      }
      tries := tries + [Try(path, flags, fd)];
    }

    /** sceIoClose and sceIoDclose. */
    method Close(fd: int) returns (res: int)
      modifies this`open
      ensures open == if 0 <= res then old(open) - {fd} else old(open)
    {
      if * {
        res :| res < 0;
      } else {
        res := 0;
        open := open - {fd};
      }
    }

    /** sceIoLseek with an offset that is not negative. */
    method Lseek(fd: int, ofs: nat, whence: Whence) returns (pos: nat)
      requires fd in open
      modifies this`open
      ensures pos == Target(files, old(open[fd]).path, old(open[fd]).pos, ofs, whence)
      ensures open == old(open)[fd := old(open[fd]).(pos := pos)]
    {
      pos := Target(files, open[fd].path, open[fd].pos, ofs, whence);
      open := open[fd := open[fd].(pos := pos)];
    }

    /** sceIoRead. */
    method Read(fd: int, len: nat) returns (res: int, data: seq<byte>)
      requires fd in open
      modifies this`open
      ensures res < 0 ==> data == [] && open == old(open)
      ensures 0 <= res ==> var h := old(open[fd]);
                           data == ReadAt(Content(files, h.path), h.pos, len) && res == |data|
                           && open == old(open)[fd := h.(pos := h.pos + |data|)]
    {
      if * {
        res, data := -1, [];
      } else {
        var h := open[fd];
        data := ReadAt(Content(files, h.path), h.pos, len);
        res := |data|;
        open := open[fd := h.(pos := h.pos + |data|)];
      }
    }

    /** sceIoWrite; a read-only descriptor refuses. */
    method Write(fd: int, data: seq<byte>) returns (res: int)
      requires fd in open
      modifies this`open, this`files
      ensures res < 0 || old(open[fd]).flags == RDONLY ==> res < 0 && open == old(open) && files == old(files)
      ensures 0 <= res ==> var h := old(open[fd]);
                           res == |data| && open == old(open)[fd := h.(pos := h.pos + |data|)]
                           && files == old(files)[h.path := WriteAt(Content(old(files), h.path), h.pos, data)]
    {
      var h := open[fd];
      if * {
        res := -1;
      } else if h.flags == RDONLY {
        res := -1;
      } else {
        res := |data|;
        files := files[h.path := WriteAt(Content(files, h.path), h.pos, data)];
        open := open[fd := h.(pos := h.pos + |data|)];
      }
    }
  }

  // ----- The module

  const DC_PATH: string := "ms0:/TM/DC9"

  /** Where a file may be found. */
  function FirstPath(file: string): string { DC_PATH + file }

  function SecondPath(file: string, testingTool: bool): string {
    (if testingTool then DC_PATH + "/testingtool" else DC_PATH + "/retail") + file
  }

  function Candidates(file: string, testingTool: bool): set<string> {
    {FirstPath(file), SecondPath(file, testingTool)}
  }

  /** The first path has been tried, and the second one only after the first had failed; `success` is the path that
      has succeeded, if any. */
  ghost predicate InTurn(was: seq<Try>, now: seq<Try>, first: string, second: string, flags: int,
                         success: Option<string>)
  {
    || (success == Some(first) && exists fd :: 0 < fd && Tried(was, now, first, flags, fd))
    || (exists middle, fd, fd' ::
          && fd < 0 && Tried(was, middle, first, flags, fd) && Tried(middle, now, second, flags, fd')
          && if 0 < fd' then success == Some(second) else success == None)
  }

  /** A slot that was open for anything but reading is as it was. */
  ghost predicate WriterKept(was: seq<Slot>, now: seq<Slot>, i: nat)
    requires i < |was| && i < |now|
  {
    was[i].Live() && was[i].flags != RDONLY ==> now[i] == was[i]
  }

  predicate NoneFree(v: seq<File>) { forall f | f in v :: f != Free }

  predicate FirstFree(v: seq<File>, slot: int) {
    0 <= slot < |v| && v[slot] == Free && forall i | 0 <= i < slot :: v[i] != Free
  }

  class Emulation {
    const kernel: Kernel
    const slots: array<Slot>

    /** FlashEmu_IoInit: all slots free. */
    constructor ()
      ensures Valid() && fresh(kernel) && fresh(slots)
      ensures forall i | 0 <= i < SLOTS :: AllViews()[i] == Free
    {
      kernel := new Kernel();
      slots := new Slot[SLOTS](i => Slot(false, 0, false, "", 0, 0, 0));
    }

    ghost predicate Valid()
      reads this, kernel, slots
    {
      slots.Length == SLOTS && Consistent(slots[..], kernel.open)
    }

    ghost function AllViews(): (v: seq<File>)
      reads this, kernel, slots
      requires Valid()
      ensures |v| == SLOTS
    {
      Views(slots[..], kernel.open)
    }

    /** Files a slot keeps open for anything but reading are not touched. */
    twostate predicate WritersKept()
      reads this, kernel, slots
      requires old(Valid()) && Valid()
    {
      forall i | 0 <= i < SLOTS && old(slots[i]).Live() && old(slots[i]).flags != RDONLY ::
        slots[i] == old(slots[i])
    }

    /** Those of all slots but one. */
    twostate predicate OtherWritersKept(slot: nat)
      reads this, kernel, slots
      requires old(Valid()) && Valid()
    {
      forall i | 0 <= i < SLOTS && i != slot && old(slots[i]).Live() && old(slots[i]).flags != RDONLY ::
        slots[i] == old(slots[i])
    }

    /** SlotGetFree. */
    method SlotGetFree() returns (slot: int)
      requires Valid()
      ensures -1 <= slot < SLOTS
      ensures slot == -1 ==> NoneFree(AllViews())
      ensures 0 <= slot ==> FirstFree(AllViews(), slot) && !slots[slot].taken
    {
      for i := 0 to SLOTS
        invariant forall j | 0 <= j < i :: slots[j].taken
      {
        if !slots[i].taken {
          return i;
        }
      }
      return -1;
    }

    /** The eviction loop: the first read-only file open is closed, its position remembered. */
    method EvictOne() returns (done: bool)
      requires Valid()
      modifies kernel`open, slots
      ensures Valid() && AllViews() == old(AllViews())
      ensures WritersKept()
      ensures forall i | 0 <= i < SLOTS :: !old(slots[i]).Live() ==> slots[i] == old(slots[i])
      ensures done <==> exists i :: 0 <= i < SLOTS && Evictable(old(slots[i]))
      ensures !done ==> slots[..] == old(slots[..]) && kernel.open == old(kernel.open)
    {
      for i := 0 to SLOTS
        invariant kernel.open == old(kernel.open) && slots[..] == old(slots[..])
        invariant forall j | 0 <= j < i :: !Evictable(slots[j])
      {
        if Evictable(slots[i]) {
          CloseReadOnly(i);
          return true;
        }
      }
      return false;
    }

    method CloseReadOnly(i: nat)
      requires Valid() && i < SLOTS && Evictable(slots[i])
      modifies kernel`open, slots
      ensures Valid() && AllViews() == old(AllViews())
      ensures slots[..] == old(slots[..])[i := slots[i]] && !slots[i].Live()
    {
      ghost var was, open := slots[..], kernel.open;
      var fd := slots[i].fd;
      var offset := kernel.Lseek(fd, 0, SeekCur);
      assert kernel.open == open;
      slots[i] := slots[i].(offset := offset, closed := true);
      var res := kernel.Close(fd);
      EvictionKeepsViews(was, open, i, kernel.open);
      assert slots[..] == was[i := Evicted(was[i], open)];
    }

    method SlotCloseOneReadOnly() returns (res: int)
      requires Valid()
      modifies kernel`open, slots
      ensures Valid() && AllViews() == old(AllViews())
      ensures WritersKept()
      ensures res == if exists i :: 0 <= i < SLOTS && Evictable(old(slots[i])) then 0 else NO_HANDLES
    {
      var done := EvictOne();
      res := if done then 0 else NO_HANDLES;
    }

    /** SlotOpen: tries until the kernel answers something else than that it has no descriptor, closing one
        read-only file before each new try. */
    method SlotOpen(slot: nat, path: string, flags: int, mode: int) returns (fd: int)
      requires Valid() && slot < SLOTS && !slots[slot].Live()
      modifies kernel, slots
      ensures Valid() && fd != 0 && fd != NO_HANDLES
      ensures AllViews() == if fd < 0 then old(AllViews()) else old(AllViews())[slot := Opened(path, flags, mode, 0)]
      ensures WritersKept()
      ensures 0 < fd ==> slots[slot] == old(slots[slot]).(taken := true, closed := false, fd := fd,
                                                          path := path, flags := flags, mode := mode)
      ensures fd < 0 ==> slots[slot] == old(slots[slot]) && kernel.files == old(kernel.files)
      ensures flags == RDONLY || flags == DIRECTORY ==> kernel.files == old(kernel.files)
      ensures Tried(old(kernel.tries), kernel.tries, path, flags, fd)
    {
      ghost var n: nat := 0;
      while true
        invariant kernel.tries == old(kernel.tries) + Refused(n, path, flags)
        invariant Valid() && slots[slot] == old(slots[slot]) && kernel.files == old(kernel.files)
        invariant WritersKept() && AllViews() == old(AllViews())
        decreases kernel.patience
      {
        ghost var open := kernel.open;
        fd := kernel.Open(path, flags);
        if fd != NO_HANDLES {
          if 0 < fd {
            TakeDescriptor(slot, path, flags, mode, fd, open);
          }
          return fd;
        }
        OneMoreRefused(old(kernel.tries), n, path, flags);
        n := n + 1;
        var done := EvictOne();
      }
    }

    /** The slot filled in after a successful open. */
    method TakeDescriptor(slot: nat, path: string, flags: int, mode: int, fd: int, ghost open: Descriptors)
      requires slots.Length == SLOTS && Consistent(slots[..], open) && slot < SLOTS && !slots[slot].Live()
      requires 0 < fd && fd !in open && kernel.open == open[fd := Handle(path, flags, 0)]
      modifies slots
      ensures Valid() && AllViews() == Views(old(slots[..]), open)[slot := Opened(path, flags, mode, 0)]
      ensures slots[..] == old(slots[..])[slot := old(slots[slot]).(taken := true, closed := false, fd := fd,
                                                                    path := path, flags := flags, mode := mode)]
    {
      ghost var was := slots[..];
      slots[slot] := slots[slot].(closed := false, flags := flags, mode := mode, taken := true, fd := fd, path := path);
      OpeningSetsOneView(was, open, slot, slots[slot]);
    }

    /** SlotGetFd: a descriptor for a slot in use, reopened at its position if it had been closed. Nobody can
        see a difference. */
    method SlotGetFd(slot: nat) returns (fd: int)
      requires Valid() && slot < SLOTS
      modifies kernel, slots
      ensures Valid() && AllViews() == old(AllViews()) && kernel.files == old(kernel.files)
      ensures fd != 0 && (AllViews()[slot] == Free ==> fd == -1)
      ensures WritersKept()
      ensures 0 < fd ==> slots[slot].Live() && slots[slot].fd == fd
    {
      if slots[slot].taken {
        if slots[slot].closed {
          var s := slots[slot];
          ghost var v := AllViews();
          assert v[slot] == Opened(s.path, s.flags, s.mode, s.offset);
          fd := SlotOpen(slot, s.path, s.flags, s.mode);
          if fd < 0 {
            return fd;
          }
          MoveTo(slot, s.offset);
          assert AllViews() == v;
        }
        return slots[slot].fd;
      }
      return -1;
    }

    /** Seeking a live slot from the start. */
    method MoveTo(slot: nat, p: nat)
      requires Valid() && slot < SLOTS && slots[slot].Live()
      modifies kernel`open
      ensures Valid() && AllViews() == old(AllViews())[slot := old(AllViews()[slot]).(pos := p)]
    {
      MovingSetsOneView(slots[..], kernel.open, slot, p);
      var pos := kernel.Lseek(slots[slot].fd, p, SeekSet);
    }

    // ----- The driver's entry points

    /** open_main, and dopen_main with the flags DIRECTORY: the path below the base directory first, then the
        one below the model's own directory. */
    method OpenMain(file: string, flags: int, mode: int, testingTool: bool) returns (res: int, slot: int)
      requires Valid()
      modifies kernel, slots
      ensures Valid() && WritersKept()
      ensures res <= 0 && (res == NO_HANDLES <==> NoneFree(old(AllViews())))
      ensures res < 0 ==> AllViews() == old(AllViews()) && kernel.files == old(kernel.files)
      ensures res == 0 ==> FirstFree(old(AllViews()), slot)
                           && exists p | p in Candidates(file, testingTool) ::
                                AllViews() == old(AllViews())[slot := Opened(p, flags, mode, 0)]
                                && InTurn(old(kernel.tries), kernel.tries, FirstPath(file),
                                          SecondPath(file, testingTool), flags, Some(p))
      ensures res < 0 && !NoneFree(old(AllViews())) ==>
                InTurn(old(kernel.tries), kernel.tries, FirstPath(file), SecondPath(file, testingTool), flags, None)
      ensures flags == RDONLY || flags == DIRECTORY ==> kernel.files == old(kernel.files)
    {
      hide Tried, FirstPath, SecondPath;
      ghost var v := AllViews();
      slot := SlotGetFree();
      if slot < 0 {
        return NO_HANDLES, slot;
      }
      assert v[slot] in v;
      var path := FirstPath(file);
      res := SlotOpen(slot, path, flags, mode);
      if res < 0 {
        path := SecondPath(file, testingTool);
        res := SlotOpen(slot, path, flags, mode);
        if res < 0 {
          return res, slot;
        }
      }
      assert path in Candidates(file, testingTool);
      return 0, slot;
    }

    /** close_main. */
    method CloseMain(slot: nat) returns (res: int)
      requires Valid() && slot < SLOTS
      modifies kernel, slots
      ensures Valid() && OtherWritersKept(slot) && (res < 0 ==> WritersKept())
      ensures Valid() && res <= 0 && kernel.files == old(kernel.files)
      ensures old(AllViews()[slot]) == Free ==> res < 0
      ensures AllViews() == if res < 0 then old(AllViews()) else old(AllViews())[slot := Free]
    {
      var fd := SlotGetFd(slot);
      if fd < 0 {
        return fd;
      }
      ghost var was, open := slots[..], kernel.open;
      res := kernel.Close(fd);
      if res < 0 {
        return res;
      }
      ClearingFreesOneView(was, open, slot, kernel.open);
      SlotClear(slot);
      return 0;
    }

    /** dclose_main: the slot is given up even if the kernel's close fails. */
    method DirCloseMain(slot: nat) returns (res: int)
      requires Valid() && slot < SLOTS
      modifies kernel, slots
      ensures Valid() && OtherWritersKept(slot)
      ensures Valid() && kernel.files == old(kernel.files)
      ensures old(AllViews()[slot]) == Free ==> res < 0
      ensures AllViews() == old(AllViews()) || AllViews() == old(AllViews())[slot := Free]
      ensures 0 <= res ==> AllViews()[slot] == Free
    {
      var fd := SlotGetFd(slot);
      if fd < 0 {
        return fd;
      }
      ghost var was, open := slots[..], kernel.open;
      res := kernel.Close(fd);
      ClearingFreesOneView(was, open, slot, kernel.open);
      SlotClear(slot);
    }

    method SlotClear(slot: nat)
      requires slot < slots.Length
      modifies slots
      ensures slots[..] == old(slots[..])[slot := old(slots[slot]).(taken := false)]
    {
      slots[slot] := slots[slot].(taken := false);
    }

    /** read_main. */
    method ReadMain(slot: nat, len: nat) returns (res: int, data: seq<byte>)
      requires Valid() && slot < SLOTS
      modifies kernel, slots
      ensures Valid() && WritersKept() && kernel.files == old(kernel.files)
      ensures old(AllViews()[slot]) == Free ==> res < 0
      ensures res < 0 ==> data == [] && AllViews() == old(AllViews())
      ensures 0 <= res ==> var f := old(AllViews()[slot]);
                           data == ReadAt(Content(kernel.files, f.path), f.pos, len) && res == |data|
                           && AllViews() == old(AllViews())[slot := f.(pos := f.pos + |data|)]
    {
      var fd := SlotGetFd(slot);
      if fd < 0 {
        return fd, [];
      }
      ghost var h := kernel.open[fd];
      assert AllViews()[slot] == View(slots[slot], kernel.open);
      forall p: nat
        ensures Consistent(slots[..], kernel.open[fd := h.(pos := p)])
                && Views(slots[..], kernel.open[fd := h.(pos := p)]) == AllViews()[slot := AllViews()[slot].(pos := p)]
      {
        MovingSetsOneView(slots[..], kernel.open, slot, p);
      }
      res, data := kernel.Read(fd, len);
    }

    /** write_main. */
    method WriteMain(slot: nat, data: seq<byte>) returns (res: int)
      requires Valid() && slot < SLOTS
      modifies kernel, slots
      ensures Valid() && WritersKept()
      ensures old(AllViews()[slot]) == Free ==> res < 0
      ensures res < 0 ==> AllViews() == old(AllViews()) && kernel.files == old(kernel.files)
      ensures 0 <= res ==> var f := old(AllViews()[slot]);
                           f.flags != RDONLY && res == |data|
                           && kernel.files == old(kernel.files)[f.path :=
                                WriteAt(Content(old(kernel.files), f.path), f.pos, data)]
                           && AllViews() == old(AllViews())[slot := f.(pos := f.pos + |data|)]
    {
      var fd := SlotGetFd(slot);
      if fd < 0 {
        return fd;
      }
      assert AllViews()[slot] == View(slots[slot], kernel.open);
      MovingSetsOneView(slots[..], kernel.open, slot, kernel.open[fd].pos + |data|);
      res := kernel.Write(fd, data);
    }

    /** lseek_main; the offset arrives as an unsigned word. */
    method LseekMain(slot: nat, ofs: nat, whence: Whence) returns (res: int)
      requires Valid() && slot < SLOTS
      modifies kernel, slots
      ensures Valid() && WritersKept() && kernel.files == old(kernel.files)
      ensures old(AllViews()[slot]) == Free ==> res < 0
      ensures res < 0 ==> AllViews() == old(AllViews())
      ensures 0 <= res ==> var f := old(AllViews()[slot]);
                           res == Target(kernel.files, f.path, f.pos, ofs, whence)
                           && AllViews() == old(AllViews())[slot := f.(pos := res)]
    {
      var fd := SlotGetFd(slot);
      if fd < 0 {
        return fd;
      }
      ghost var h := kernel.open[fd];
      assert AllViews()[slot] == View(slots[slot], kernel.open);
      MovingSetsOneView(slots[..], kernel.open, slot, Target(kernel.files, h.path, h.pos, ofs, whence));
      res := kernel.Lseek(fd, ofs, whence);
    }
  }

  // ----- Whole runs

  datatype Op =
    | Open(file: string, flags: int, mode: int)
    | Close(slot: nat)
    | DirClose(slot: nat)
    | Read(slot: nat, len: nat)
    | Write(slot: nat, data: seq<byte>)
    | Seek(slot: nat, ofs: nat, whence: Whence)
    | MakeRoom

  datatype Answer =
    | Failed(code: int)
    | Done
    | InSlot(index: int)
    | Data(bytes: seq<byte>)
    | Number(n: int)

  predicate WellFormed(op: Op) { !op.Open? && !op.MakeRoom? ==> op.slot < SLOTS }

  /** The ideal machine: 32 files that stay open at their positions. A call fails without effect, or does
      exactly what it is for; making room is invisible. Only writing touches files. */
  ghost predicate Step(v: seq<File>, files: Files, op: Op, testing: bool, a: Answer, v': seq<File>, files': Files)
    requires |v| == SLOTS && WellFormed(op)
  {
    if a.Failed? && !op.DirClose? then v' == v && files' == files && a.code < 0
    else match op
      case Open(file, flags, mode) =>
        a.InSlot? && FirstFree(v, a.index)
        && (exists p | p in Candidates(file, testing) :: v' == v[a.index := Opened(p, flags, mode, 0)])
        && (flags == RDONLY || flags == DIRECTORY ==> files' == files)
      case Close(i) => a == Done && v[i] != Free && v' == v[i := Free] && files' == files
      case DirClose(i) =>
        files' == files && (a.Failed? || (a.Number? && v'[..] == v[i := Free]))
        && (v' == v || v' == v[i := Free])
      case Read(i, len) =>
        v[i] != Free && files' == files && a == Data(ReadAt(Content(files, v[i].path), v[i].pos, len))
        && v' == v[i := v[i].(pos := v[i].pos + |a.bytes|)]
      case Write(i, data) =>
        v[i] != Free && v[i].flags != RDONLY && a == Number(|data|)
        && files' == files[v[i].path := WriteAt(Content(files, v[i].path), v[i].pos, data)]
        && v' == v[i := v[i].(pos := v[i].pos + |data|)]
      case Seek(i, ofs, whence) =>
        v[i] != Free && files' == files
        && var p := Target(files, v[i].path, v[i].pos, ofs, whence); a == Number(p) && v' == v[i := v[i].(pos := p)]
      case MakeRoom => a == Done && v' == v && files' == files
  }

  ghost predicate Run(v: seq<File>, files: Files, ops: seq<Op>, testing: bool, answers: seq<Answer>,
                      v': seq<File>, files': Files)
    requires |v| == SLOTS && forall op | op in ops :: WellFormed(op)
    decreases |ops|
  {
    |answers| == |ops| &&
    if ops == [] then v' == v && files' == files
    else exists v1, files1 :: |v1| == SLOTS && Step(v, files, ops[0], testing, answers[0], v1, files1)
                              && Run(v1, files1, ops[1..], testing, answers[1..], v', files')
  }

  predicate Closes(op: Op, i: nat) { (op.Close? || op.DirClose?) && op.slot == i }

  /** A slot that was open for anything but reading, and that none of the calls was to close, is as it was: its
      descriptor has not been taken away. */
  ghost predicate KeptWriters(was: seq<Slot>, now: seq<Slot>, ops: seq<Op>) {
    |was| == |now| == SLOTS
    && forall i | 0 <= i < SLOTS && LeftOpen(ops, i) :: WriterKept(was, now, i)
  }

  /** None of the calls is to close slot i. */
  ghost predicate LeftOpen(ops: seq<Op>, i: nat) { forall k | 0 <= k < |ops| :: !Closes(ops[k], i) }

  lemma OneCall(was: seq<Slot>, now: seq<Slot>, op: Op)
    requires |was| == |now| == SLOTS && forall i | 0 <= i < SLOTS && !Closes(op, i) :: WriterKept(was, now, i)
    ensures KeptWriters(was, now, [op])
  {
    hide Closes, WriterKept;
    forall i | 0 <= i < SLOTS && LeftOpen([op], i)
      ensures WriterKept(was, now, i)
    {
      assert !Closes([op][0], i);
    }
  }

  // Each kind of call, as a step of the ideal machine.

  method DoOpen(e: Emulation, file: string, flags: int, mode: int, testing: bool) returns (a: Answer)
    requires e.Valid()
    modifies e.kernel, e.slots
    ensures e.Valid() && KeptWriters(old(e.slots[..]), e.slots[..], [Open(file, flags, mode)])
    ensures Step(old(e.AllViews()), old(e.kernel.files), Open(file, flags, mode), testing, a, e.AllViews(),
                 e.kernel.files)
  {
    hide KeptWriters, LeftOpen;
    ghost var was := e.slots[..];
    var res, slot := e.OpenMain(file, flags, mode, testing);
    a := if res < 0 then Failed(res) else InSlot(slot);
    OneCall(was, e.slots[..], Open(file, flags, mode));
  }

  method DoClose(e: Emulation, i: nat, testing: bool) returns (a: Answer)
    requires e.Valid() && i < SLOTS
    modifies e.kernel, e.slots
    ensures e.Valid() && KeptWriters(old(e.slots[..]), e.slots[..], [Close(i)])
    ensures Step(old(e.AllViews()), old(e.kernel.files), Close(i), testing, a, e.AllViews(), e.kernel.files)
  {
    hide KeptWriters, LeftOpen;
    ghost var was := e.slots[..];
    var res := e.CloseMain(i);
    a := if res < 0 then Failed(res) else Done;
    OneCall(was, e.slots[..], Close(i));
  }

  method DoDirClose(e: Emulation, i: nat, testing: bool) returns (a: Answer)
    requires e.Valid() && i < SLOTS
    modifies e.kernel, e.slots
    ensures e.Valid() && KeptWriters(old(e.slots[..]), e.slots[..], [DirClose(i)])
    ensures Step(old(e.AllViews()), old(e.kernel.files), DirClose(i), testing, a, e.AllViews(), e.kernel.files)
  {
    hide KeptWriters, LeftOpen;
    ghost var was := e.slots[..];
    var res := e.DirCloseMain(i);
    a := if res < 0 then Failed(res) else Number(res);
    OneCall(was, e.slots[..], DirClose(i));
  }

  method DoRead(e: Emulation, i: nat, len: nat, testing: bool) returns (a: Answer)
    requires e.Valid() && i < SLOTS
    modifies e.kernel, e.slots
    ensures e.Valid() && KeptWriters(old(e.slots[..]), e.slots[..], [Read(i, len)])
    ensures Step(old(e.AllViews()), old(e.kernel.files), Read(i, len), testing, a, e.AllViews(), e.kernel.files)
  {
    hide KeptWriters, LeftOpen;
    ghost var was := e.slots[..];
    var res, data := e.ReadMain(i, len);
    a := if res < 0 then Failed(res) else Data(data);
    OneCall(was, e.slots[..], Read(i, len));
  }

  method DoWrite(e: Emulation, i: nat, data: seq<byte>, testing: bool) returns (a: Answer)
    requires e.Valid() && i < SLOTS
    modifies e.kernel, e.slots
    ensures e.Valid() && KeptWriters(old(e.slots[..]), e.slots[..], [Write(i, data)])
    ensures Step(old(e.AllViews()), old(e.kernel.files), Write(i, data), testing, a, e.AllViews(), e.kernel.files)
  {
    hide KeptWriters, LeftOpen;
    ghost var was := e.slots[..];
    var res := e.WriteMain(i, data);
    a := if res < 0 then Failed(res) else Number(res);
    OneCall(was, e.slots[..], Write(i, data));
  }

  method DoSeek(e: Emulation, i: nat, ofs: nat, whence: Whence, testing: bool) returns (a: Answer)
    requires e.Valid() && i < SLOTS
    modifies e.kernel, e.slots
    ensures e.Valid() && KeptWriters(old(e.slots[..]), e.slots[..], [Seek(i, ofs, whence)])
    ensures Step(old(e.AllViews()), old(e.kernel.files), Seek(i, ofs, whence), testing, a, e.AllViews(), e.kernel.files)
  {
    hide KeptWriters, LeftOpen;
    ghost var was := e.slots[..];
    var res := e.LseekMain(i, ofs, whence);
    a := if res < 0 then Failed(res) else Number(res);
    OneCall(was, e.slots[..], Seek(i, ofs, whence));
  }

  method DoMakeRoom(e: Emulation, testing: bool) returns (a: Answer)
    requires e.Valid()
    modifies e.kernel, e.slots
    ensures e.Valid() && KeptWriters(old(e.slots[..]), e.slots[..], [MakeRoom])
    ensures Step(old(e.AllViews()), old(e.kernel.files), MakeRoom, testing, a, e.AllViews(), e.kernel.files)
  {
    hide KeptWriters, LeftOpen;
    ghost var was := e.slots[..];
    var res := e.SlotCloseOneReadOnly();
    a := Done;
    OneCall(was, e.slots[..], MakeRoom);
  }

  /** One call of the driver is one step of the ideal machine. */
  method Do(e: Emulation, op: Op, testing: bool) returns (a: Answer)
    requires e.Valid() && WellFormed(op)
    modifies e.kernel, e.slots
    ensures e.Valid() && KeptWriters(old(e.slots[..]), e.slots[..], [op])
    ensures Step(old(e.AllViews()), old(e.kernel.files), op, testing, a, e.AllViews(), e.kernel.files)
  {
    hide KeptWriters, Step;
    match op {
      case Open(file, flags, mode) => a := DoOpen(e, file, flags, mode, testing);
      case Close(i) => a := DoClose(e, i, testing);
      case DirClose(i) => a := DoDirClose(e, i, testing);
      case Read(i, len) => a := DoRead(e, i, len, testing);
      case Write(i, data) => a := DoWrite(e, i, data, testing);
      case Seek(i, ofs, whence) => a := DoSeek(e, i, ofs, whence, testing);
      case MakeRoom => a := DoMakeRoom(e, testing);
    }
  }

  /** Every run of the driver, whatever is closed and reopened underneath, is a run of the ideal machine. */
  method DoAll(e: Emulation, ops: seq<Op>, testing: bool) returns (answers: seq<Answer>)
    requires e.Valid() && forall op | op in ops :: WellFormed(op)
    modifies e.kernel, e.slots
    decreases |ops|
    ensures e.Valid() && KeptWriters(old(e.slots[..]), e.slots[..], ops)
    ensures Run(old(e.AllViews()), old(e.kernel.files), ops, testing, answers, e.AllViews(), e.kernel.files)
  {
    if ops == [] {
      answers := [];
    } else {
      ghost var was := e.slots[..];
      var a := Do(e, ops[0], testing);
      ghost var v1, files1, middle := e.AllViews(), e.kernel.files, e.slots[..];
      var rest := DoAll(e, ops[1..], testing);
      KeptTwice(was, middle, e.slots[..], ops);
      answers := [a] + rest;
      assert answers[1..] == rest;
    }
  }

  lemma KeptTwice(was: seq<Slot>, middle: seq<Slot>, now: seq<Slot>, ops: seq<Op>)
    requires ops != [] && KeptWriters(was, middle, [ops[0]]) && KeptWriters(middle, now, ops[1..])
    ensures KeptWriters(was, now, ops)
  {
    hide Closes;
    forall i | 0 <= i < SLOTS && LeftOpen(ops, i)
      ensures WriterKept(was, now, i)
    {
      assert LeftOpen([ops[0]], i) && LeftOpen(ops[1..], i);
      assert WriterKept(was, middle, i) && WriterKept(middle, now, i);
    }
  }

  /** The bytes a run of reads delivers to the owner of slot i. */
  function Delivered(ops: seq<Op>, answers: seq<Answer>, i: nat): seq<byte>
    requires |ops| == |answers|
  {
    if ops == [] then []
    else (if ops[0].Read? && ops[0].slot == i && answers[0].Data? then answers[0].bytes else [])
         + Delivered(ops[1..], answers[1..], i)
  }

  /** Slot i is only read, and nothing is written; all else is allowed. */
  predicate Undisturbed(op: Op, i: nat) {
    match op
    case Open(_, flags, _) => flags == RDONLY || flags == DIRECTORY
    case Close(j) => j != i
    case DirClose(j) => j != i
    case Read(_, _) => true
    case Write(_, _) => false
    case Seek(j, _, _) => j != i
    case MakeRoom => true
  }

  /** The bytes d of a file lie between its positions before and after. */
  ghost predicate ReadsOn(before: File, after: File, files: Files, d: seq<byte>)
    requires before != Free
  {
    after == before.(pos := before.pos + |d|)
    && (before.pos <= |Content(files, before.path)| ==>
          before.pos + |d| <= |Content(files, before.path)|
          && d == Content(files, before.path)[before.pos..before.pos + |d|])
  }

  lemma ReadsOnTwice(f: File, g: File, h: File, files: Files, d: seq<byte>, e: seq<byte>)
    requires f != Free && g != Free && ReadsOn(f, g, files, d) && ReadsOn(g, h, files, e)
    ensures ReadsOn(f, h, files, d + e)
  {
  }

  lemma OneMoreRefused(was: seq<Try>, n: nat, path: string, flags: int)
    ensures was + Refused(n, path, flags) + [Try(path, flags, NO_HANDLES)] == was + Refused(n + 1, path, flags)
  {
  }

  lemma StepUndisturbed(v: seq<File>, files: Files, op: Op, testing: bool, a: Answer,
                        v': seq<File>, files': Files, i: nat)
    requires |v| == SLOTS && WellFormed(op) && i < SLOTS && v[i] != Free && Undisturbed(op, i)
    requires Step(v, files, op, testing, a, v', files')
    ensures |v'| == SLOTS && files' == files
    ensures ReadsOn(v[i], v'[i], files, Delivered([op], [a], i))
  {
    assert Delivered([], [], i) == [];
    assert [op][1..] == [] && [a][1..] == [];
    assert Delivered([op], [a], i) == if op.Read? && op.slot == i && a.Data? then a.bytes else [];
  }

  /** Whatever else happens in between, the reads of a slot deliver consecutive bytes of its file. */
  lemma {:induction false} ReadsAreConsecutive(v: seq<File>, files: Files, ops: seq<Op>, testing: bool,
                                               answers: seq<Answer>, v': seq<File>, files': Files, i: nat)
    requires |v| == SLOTS && i < SLOTS && v[i] != Free
    requires forall op | op in ops :: WellFormed(op) && Undisturbed(op, i)
    requires Run(v, files, ops, testing, answers, v', files')
    ensures |v'| == SLOTS && files' == files
    ensures ReadsOn(v[i], v'[i], files, Delivered(ops, answers, i))
    decreases |ops|
  {
    hide Step, Candidates, ReadsOn, Delivered;
    if ops == [] {
      NothingDelivered(v[i], files, i);
    } else {
      var v1, files1 :| |v1| == SLOTS && Step(v, files, ops[0], testing, answers[0], v1, files1)
                        && Run(v1, files1, ops[1..], testing, answers[1..], v', files');
      StepUndisturbed(v, files, ops[0], testing, answers[0], v1, files1, i);
      FirstDelivered(ops, answers, i);
      StillOpen(v[i], v1[i], files, Delivered([ops[0]], [answers[0]], i));
      ReadsAreConsecutive(v1, files1, ops[1..], testing, answers[1..], v', files', i);
      ReadsOnTwice(v[i], v1[i], v'[i], files, Delivered([ops[0]], [answers[0]], i),
                   Delivered(ops[1..], answers[1..], i));
    }
  }

  lemma NothingDelivered(f: File, files: Files, i: nat)
    requires f != Free
    ensures ReadsOn(f, f, files, Delivered([], [], i))
  {
  }

  lemma StillOpen(f: File, g: File, files: Files, d: seq<byte>)
    requires f != Free && ReadsOn(f, g, files, d)
    ensures g != Free
  {
  }

  lemma FirstDelivered(ops: seq<Op>, answers: seq<Answer>, i: nat)
    requires 0 < |ops| == |answers|
    ensures Delivered(ops, answers, i) == Delivered([ops[0]], [answers[0]], i) + Delivered(ops[1..], answers[1..], i)
  {
    assert Delivered([], [], i) == [];
    assert [ops[0]][1..] == [] && [answers[0]][1..] == [];
  }
}
