/** The slot table of modules/flashemu/flashemu.c as a value: 32 virtual handles over the kernel's
    descriptors, what each stands for, and what the changes the module makes to it keep. */
module Slots {
  const RDONLY: int := 1  // PSP_O_RDONLY of the SDK
  const DIRECTORY: int := 0xD0D0
  const SLOTS: nat := 32

  /** An entry of the kernel's descriptor table. */
  datatype Handle = Handle(path: string, flags: int, pos: nat)

  /** struct emu_file. */
  datatype Slot = Slot(taken: bool, fd: int, closed: bool, path: string, mode: int, flags: int, offset: nat)
  {
    predicate Live() { taken && !closed }
  }

  /** What the owner of a slot believes to have: nothing, or a file open at a position. */
  datatype File = Free | Opened(path: string, flags: int, mode: int, pos: nat)

  type Descriptors = map<int, Handle>

  function View(s: Slot, open: Descriptors): File {
    if !s.taken then Free
    else Opened(s.path, s.flags, s.mode,
                if s.closed then s.offset else if s.fd in open then open[s.fd].pos else 0)
  }

  function Views(slots: seq<Slot>, open: Descriptors): (v: seq<File>)
    ensures |v| == |slots|
  {
    seq(|slots|, i requires 0 <= i < |slots| => View(slots[i], open))
  }

  /** Live slots hold descriptors of their own, open on their files; only read-only slots are closed. */
  ghost predicate Consistent(slots: seq<Slot>, open: Descriptors) {
    && |slots| == SLOTS
    && (forall i | 0 <= i < SLOTS && slots[i].Live() ::
          0 < slots[i].fd && slots[i].fd in open
          && open[slots[i].fd].path == slots[i].path && open[slots[i].fd].flags == slots[i].flags)
    && (forall i, j | 0 <= i < j < SLOTS && slots[i].Live() && slots[j].Live() :: slots[i].fd != slots[j].fd)
    && (forall i | 0 <= i < SLOTS && slots[i].taken && slots[i].closed :: slots[i].flags == RDONLY)
  }

  /** The slots that may be closed to make room. */
  predicate Evictable(s: Slot) { s.Live() && s.flags == RDONLY }

  function Evicted(s: Slot, open: Descriptors): Slot
    requires s.fd in open
  {
    s.(offset := open[s.fd].pos, closed := true)
  }

  /** Closing a read-only slot changes nothing its owner, or any other owner, can see; whether or not the
      kernel really lets go of the descriptor. */
  lemma EvictionKeepsViews(slots: seq<Slot>, open: Descriptors, i: nat, open': Descriptors)
    requires Consistent(slots, open) && i < SLOTS && Evictable(slots[i])
    requires open' == open || open' == open - {slots[i].fd}
    ensures var slots' := slots[i := Evicted(slots[i], open)];
            Consistent(slots', open') && Views(slots', open') == Views(slots, open)
  {
    var slots' := slots[i := Evicted(slots[i], open)];
    forall j | 0 <= j < SLOTS
      ensures View(slots'[j], open') == View(slots[j], open)
    {
      assert j != i && slots[j].Live() ==> slots[j].fd != slots[i].fd;
    }
  }

  /** A slot that was not live takes a new descriptor. */
  lemma OpeningSetsOneView(slots: seq<Slot>, open: Descriptors, i: nat, s: Slot)
    requires Consistent(slots, open) && i < SLOTS && !slots[i].Live()
    requires s.Live() && 0 < s.fd && s.fd !in open
    ensures var slots', open' := slots[i := s], open[s.fd := Handle(s.path, s.flags, 0)];
            Consistent(slots', open')
            && Views(slots', open') == Views(slots, open)[i := Opened(s.path, s.flags, s.mode, 0)]
  {
  }

  /** Moving the position of one live slot. */
  lemma MovingSetsOneView(slots: seq<Slot>, open: Descriptors, i: nat, p: nat)
    requires Consistent(slots, open) && i < SLOTS && slots[i].Live()
    ensures var open' := open[slots[i].fd := open[slots[i].fd].(pos := p)];
            Consistent(slots, open')
            && Views(slots, open') == Views(slots, open)[i := View(slots[i], open).(pos := p)]
  {
    var open' := open[slots[i].fd := open[slots[i].fd].(pos := p)];
    forall j | 0 <= j < SLOTS && j != i
      ensures View(slots[j], open') == View(slots[j], open)
    {
      if slots[j].Live() {
        assert if i < j then slots[i].fd != slots[j].fd else slots[j].fd != slots[i].fd;
      }
    }
  }

  /** Giving a slot up. */
  lemma ClearingFreesOneView(slots: seq<Slot>, open: Descriptors, i: nat, open': Descriptors)
    requires Consistent(slots, open) && i < SLOTS && slots[i].Live()
    requires open' == open || open' == open - {slots[i].fd}
    ensures var slots' := slots[i := slots[i].(taken := false)];
            Consistent(slots', open') && Views(slots', open') == Views(slots, open)[i := Free]
  {
    var slots' := slots[i := slots[i].(taken := false)];
    forall j | 0 <= j < SLOTS && j != i
      ensures View(slots'[j], open') == View(slots[j], open)
    {
      if slots[j].Live() {
        assert if i < j then slots[i].fd != slots[j].fd else slots[j].fd != slots[i].fd;
      }
    }
  }
}
