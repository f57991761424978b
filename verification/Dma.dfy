/** The DMA buffer object: a device descriptor, a shared mapping, and the status
    that says whether they may be used. */
module Dma {
  import opened Bytes

  const STATUS_DEAD := 0
  const STATUS_INIT := 1
  const STATUS_ALLOCATED := 2

  // The mapping pointer can be null, mmap's error value, or a mapping.
  datatype Pointer = Null | MapFailed | Mapped(mem: array<byte>)

  // Outcomes of the system calls: open's descriptor (-1: error), the allocation ioctl
  // with the size the driver settled on, and mmap.
  datatype AllocEnv = AllocEnv(fd: int, openErrno: int, ioctl: int, ioctlErrno: int, driverSize: nat, mapped: bool)
  datatype FreeEnv = FreeEnv(msync: int, munmap: int, ioctl: int)

  // One call of a run.
  datatype Op = Alloc(wanted: nat, allocEnv: AllocEnv) | Free(freeEnv: FreeEnv) | Close | Copy(write: Write)

  // One memcpy of a run.
  datatype Write = Write(offset: int, data: seq<byte>)

  // ---------------------------------------------------------------- specification

  // The bound check, in the unsigned arithmetic it is made in.
  predicate CheckPasses(offset: int, len: u32, size: nat)
  {
    Wrap32(offset + len) <= size
  }

  predicate InRange(offset: int, len: nat, size: nat)
  {
    0 <= offset && offset + len <= size
  }

  // The check means what it should exactly when the offset is not negative and the
  // sum does not wrap; otherwise whatever it lets through is out of range.
  lemma CheckMeansInRange(offset: int, len: u32, size: u32)
    requires -0x8000_0000 <= offset < 0x8000_0000 && CheckPasses(offset, len, size)
    ensures InRange(offset, len, size) <==> 0 <= offset && offset + len < U32_RANGE
  {
  }

  // What a caller has to see to: a copy whose check passes is in range.
  predicate Bounded(w: Write, size: nat)
  {
    |w.data| < U32_RANGE && (CheckPasses(w.offset, |w.data|, size) ==> InRange(w.offset, |w.data|, size))
  }

  // Four bytes before the mapping, and the check passes.
  lemma NegativeOffsetPasses(size: nat)
    ensures CheckPasses(-4, 4, size) && !InRange(-4, 4, size) && !Bounded(Write(-4, [1, 2, 3, 4]), size)
  {
    assert [1, 2, 3, 4] == Write(-4, [1, 2, 3, 4]).data;
  }

  // A run of copies as a fold of pure overwrites; what is out of range has no effect.
  function Fold(s: seq<byte>, ws: seq<Write>): (r: seq<byte>)
    ensures |r| == |s|
  {
    if ws == [] then s
    else
      var before, w := Fold(s, ws[..|ws| - 1]), ws[|ws| - 1];
      if InRange(w.offset, |w.data|, |s|) then Overwrite(before, w.offset, w.data) else before
  }

  predicate Covers(w: Write, size: nat, i: nat)
  {
    InRange(w.offset, |w.data|, size) && w.offset <= i < w.offset + |w.data|
  }

  // Each byte of the mapping comes from the last copy that covered it.
  lemma {:induction false} LastWriterWins(s: seq<byte>, ws: seq<Write>, i: nat, k: nat)
    requires i < |s| && k < |ws| && Covers(ws[k], |s|, i)
    requires forall j :: k < j < |ws| ==> !Covers(ws[j], |s|, i)
    ensures Fold(s, ws)[i] == ws[k].data[i - ws[k].offset]
  {
    if k < |ws| - 1 {
      LastWriterWins(s, ws[..|ws| - 1], i, k);
      assert !Covers(ws[|ws| - 1], |s|, i);
    }
  }

  // And a byte no copy covered is as it was.
  lemma {:induction false} UncoveredStays(s: seq<byte>, ws: seq<Write>, i: nat)
    requires i < |s| && forall j :: 0 <= j < |ws| ==> !Covers(ws[j], |s|, i)
    ensures Fold(s, ws)[i] == s[i]
  {
    if ws != [] {
      UncoveredStays(s, ws[..|ws| - 1], i);
      assert !Covers(ws[|ws| - 1], |s|, i);
    }
  }

  // What a buffer object refers to: an open descriptor, a live mapping of some size.
  datatype Held = Held(descriptor: bool, mapping: Option<nat>)

  function After(h: Held, op: Op): Held
  {
    match op
    case Alloc(_, env) =>
      if env.fd >= 0 && env.ioctl == 0 && env.mapped then Held(true, Some(env.driverSize)) else Held(false, None)
    case Free(_) => Held(h.descriptor, None)
    case Close => Held(false, None)
    case Copy(_) => h
  }

  function AfterAll(ops: seq<Op>): Held
  {
    if ops == [] then Held(false, None) else After(AfterAll(ops[..|ops| - 1]), ops[|ops| - 1])
  }

  // A call that gives up nothing it holds: no allocation over an open descriptor, no
  // close of a live mapping, no free that fails to release one.
  predicate Orderly(h: Held, op: Op)
  {
    match op
    case Alloc(_, _) => !h.descriptor
    case Free(env) => h.mapping.Some? ==> env.msync == 0 && env.munmap == 0
    case Close => h.mapping.None?
    case Copy(_) => true
  }

  predicate AllOrderly(ops: seq<Op>)
  {
    ops == [] || (AllOrderly(ops[..|ops| - 1]) && Orderly(AfterAll(ops[..|ops| - 1]), ops[|ops| - 1]))
  }

  // What the system can answer, and what a caller may do in the state it meets.
  predicate Possible(h: Held, op: Op)
  {
    match op
    case Alloc(_, env) => env.fd >= -1
    case Copy(w) => |w.data| < U32_RANGE && (h.mapping.Some? ==> Bounded(w, h.mapping.value))
    case _ => true
  }

  // ---------------------------------------------------------------- the object

  class Meimm {
    var fd: int
    var ptr: Pointer
    var size: nat
    var status: nat

    // What this object's calls acquired and have not given back.
    ghost var open: multiset<int>
    ghost var maps: set<array<byte>>
    // Of those, what the object no longer refers to.
    ghost var lostFds: multiset<int>
    ghost var lostMaps: set<array<byte>>

    // ALLOCATED means an open descriptor and a live mapping of exactly size bytes, and
    // all that was acquired is either referred to or accounted for as lost.
    ghost predicate Valid()
      reads this
    {
      && FdAccounted() && status in {STATUS_DEAD, STATUS_INIT, STATUS_ALLOCATED}
      && (status == STATUS_ALLOCATED ==>
            && fd >= 0
            && ptr.Mapped? && ptr.mem in maps && ptr.mem.Length == size && ptr.mem !in lostMaps)
      && maps == lostMaps + (if status == STATUS_ALLOCATED then {ptr.mem} else {})
    }

    ghost predicate FdAccounted()
      reads this
    {
      fd >= -1 && open == if fd >= 0 then lostFds + multiset{fd} else lostFds
    }

    // Pointer and size are whatever was in the memory before.
    constructor Init(oldPtr: Pointer, oldSize: nat)
      ensures Valid() && fd == -1 && status == STATUS_INIT
      ensures open == multiset{} && maps == {} && lostFds == multiset{} && lostMaps == {}
    {
      fd, ptr, size, status := -1, oldPtr, oldSize, STATUS_INIT;
      open, maps, lostFds, lostMaps := multiset{}, {}, multiset{}, {};
    }

    // Closes the descriptor; a mapping that is still there is forgotten.
    method Deinit()
      requires FdAccounted()
      modifies this
      ensures Valid() && fd == -1 && status == STATUS_DEAD && ptr == old(ptr) && size == old(size)
      ensures open == lostFds == old(lostFds) && maps == lostMaps == old(maps)
    {
      if fd >= 0 {
        open := open - multiset{fd};
        assert open == lostFds;
      }
      fd := -1;
      lostMaps := maps;
      status := STATUS_DEAD;
    }

    // Zero is returned also when mmap fails; only the status tells.
    method AllocMapMemory(wanted: nat, env: AllocEnv) returns (ret: int)
      requires Valid() && env.fd >= -1
      modifies this
      ensures Valid()
      ensures status == STATUS_ALLOCATED <==> env.fd >= 0 && env.ioctl == 0 && env.mapped
      ensures ret == if env.fd == -1 then env.openErrno else if env.ioctl != 0 then env.ioctlErrno else 0
      ensures status == STATUS_ALLOCATED ==>
        && fd == env.fd && size == env.driverSize && ptr.Mapped? && fresh(ptr.mem)
        && maps == old(maps) + {ptr.mem}
      ensures status != STATUS_ALLOCATED ==>
        status == STATUS_DEAD && fd == -1 && size == old(size) && maps == old(maps)
      // A descriptor or mapping held before the call is lost, and nothing else is.
      ensures lostFds == old(open) && lostMaps == old(maps)
    {
      lostFds, lostMaps := open, maps;
      fd := env.fd;
      if fd == -1 {
        ret := env.openErrno;
        Deinit();
        return;
      }
      open := open + multiset{fd};
      ret := env.ioctl;
      if ret != 0 {
        ret := env.ioctlErrno;
        Deinit();
        return;
      }
      if !env.mapped {
        ptr := MapFailed;
        Deinit();
        return;
      }
      TakeMapping(env.driverSize);
    }

    // A mapping of the driver's size is now this object's.
    method TakeMapping(driverSize: nat)
      requires FdAccounted() && fd >= 0 && lostMaps == maps
      modifies this`ptr, this`maps, this`size, this`status
      ensures Valid() && status == STATUS_ALLOCATED && size == driverSize
      ensures ptr.Mapped? && fresh(ptr.mem) && maps == old(maps) + {ptr.mem}
    {
      var mem := new byte[driverSize];
      ptr := Mapped(mem);
      maps := maps + {mem};
      size := driverSize;
      status := STATUS_ALLOCATED;
    }

    // The status goes back to INIT whether or not the mapping could be released.
    method FreeMemory(env: FreeEnv) returns (ret: int)
      requires Valid()
      modifies this
      ensures Valid() && fd == old(fd) && open == old(open) && lostFds == old(lostFds)
      ensures status == if old(status) == STATUS_ALLOCATED then STATUS_INIT else old(status)
      ensures old(status) != STATUS_ALLOCATED ==> ret == 0 && maps == old(maps) && lostMaps == old(lostMaps)
      ensures old(status) == STATUS_ALLOCATED ==>
        && (env.msync == 0 && env.munmap == 0 ==>
              ret == env.ioctl && maps == old(maps) - {old(ptr).mem} && lostMaps == old(lostMaps))
        && (env.msync != 0 || env.munmap != 0 ==>
              ret != 0 && maps == old(maps) && lostMaps == old(lostMaps) + {old(ptr).mem})
    {
      if status != STATUS_ALLOCATED {
        return 0;
      }
      if ptr == Null {
        return 0;
      }
      ret := env.msync;
      if ret == 0 {
        ret := env.munmap;
        if ret == 0 {
          maps := maps - {ptr.mem};
          ret := env.ioctl;
        }
      }
      lostMaps := maps;
      status := STATUS_INIT;
    }

    // The getters give the mapping away only while it is live.
    method GetAddr() returns (addr: Pointer)
      requires Valid()
      ensures addr != Null <==> status == STATUS_ALLOCATED
      ensures addr != Null ==> addr.Mapped? && addr.mem in maps && addr.mem.Length == size && fd in open
    {
      addr := if status == STATUS_ALLOCATED then ptr else Null;
    }

    method GetSize() returns (n: int)
      requires Valid()
      ensures if status == STATUS_ALLOCATED then ptr.Mapped? && n == ptr.mem.Length else n == -1
    {
      n := if status == STATUS_ALLOCATED then size else -1;
    }

    // Copy into the mapping.  The result is the offset written, None for a null pointer.
    method Memcpy(offset: int, buf: seq<byte>, len: u32, msync: int) returns (at: Option<nat>)
      requires Valid() && len <= |buf|
      requires status == STATUS_ALLOCATED && CheckPasses(offset, len, size) ==> InRange(offset, len, size)
      modifies if status == STATUS_ALLOCATED && ptr.Mapped? then {ptr.mem} else {}
      ensures Valid()
      ensures at == if status == STATUS_ALLOCATED && InRange(offset, len, size) then Some(offset) else None
      ensures status == STATUS_ALLOCATED ==>
        ptr.mem[..] == if InRange(offset, len, size) then Overwrite(old(ptr.mem[..]), offset, buf[..len])
                       else old(ptr.mem[..])
    {
      if status != STATUS_ALLOCATED || ptr == Null {
        return None;
      }
      if Wrap32(offset + len) > size {
        return None;
      }
      Store(ptr.mem, offset, buf[..len]);
      at := Some(offset);
    }

    // Any run of copies leaves the mapping equal to the fold of pure overwrites.
    method CopyAll(ws: seq<Write>)
      requires Valid() && status == STATUS_ALLOCATED
      requires forall i :: 0 <= i < |ws| ==> Bounded(ws[i], size)
      modifies ptr.mem
      ensures Valid() && ptr.mem[..] == Fold(old(ptr.mem[..]), ws)
    {
      assert ws[..0] == [];
      for i := 0 to |ws|
        invariant Valid() && ptr.mem[..] == Fold(old(ptr.mem[..]), ws[..i])
      {
        assert ws[..i + 1][..i] == ws[..i];
        var _ := Memcpy(ws[i].offset, ws[i].data, |ws[i].data|, 0);
        assert ws[i].data[..|ws[i].data|] == ws[i].data;
      }
      assert ws[..|ws|] == ws;
    }

    ghost function Holding(): Held
      reads this
    {
      Held(fd >= 0, if status == STATUS_ALLOCATED then Some(size) else None)
    }

    ghost predicate NothingLost()
      reads this
    {
      lostFds == multiset{} && lostMaps == {}
    }

    // One call of a run.  Something is lost by it exactly when it was not orderly.
    method Do(op: Op)
      requires Valid() && Possible(Holding(), op)
      modifies this, if status == STATUS_ALLOCATED && ptr.Mapped? then {ptr.mem} else {}
      ensures Valid() && Holding() == After(old(Holding()), op)
      ensures forall m :: m in maps ==> m in old(maps) || fresh(m)
      ensures NothingLost() <==> old(NothingLost()) && Orderly(old(Holding()), op)
    {
      match op {
        case Alloc(wanted, env) => var _ := AllocMapMemory(wanted, env);
        case Free(env) => var _ := FreeMemory(env);
        case Close => Deinit();
        case Copy(w) => var _ := Memcpy(w.offset, w.data, |w.data|, 0);
      }
    }

    // Any run from initialisation keeps the invariant, and loses a descriptor or a
    // mapping exactly when some call of it was not orderly.
    method Drive(ops: seq<Op>)
      requires Valid() && open == multiset{} && maps == {} && status == STATUS_INIT
      requires forall i :: 0 <= i < |ops| ==> Possible(AfterAll(ops[..i]), ops[i])
      modifies this
      ensures Valid() && Holding() == AfterAll(ops)
      ensures NothingLost() <==> AllOrderly(ops)
    {
      hide Orderly, After;
      assert ops[..0] == [];
      for i := 0 to |ops|
        invariant Valid() && (forall m :: m in maps ==> fresh(m)) && Holding() == AfterAll(ops[..i])
        invariant NothingLost() <==> AllOrderly(ops[..i])
      {
        assert ops[..i + 1][..i] == ops[..i];
        Do(ops[i]);
      }
      assert ops[..|ops|] == ops;
    }
  }
}
