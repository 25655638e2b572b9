/** The descriptor table as a value: what each system call does to it, and what any run of calls keeps.
    A call into a driver is represented by its outcome: the status it returns and the private field it
    leaves in the descriptor. */
module FdModel {
  import opened FdFlags

  datatype Option<+T> = None | Some(value: T)

  /** What a name can be found to be: a character device, or a filesystem. */
  datatype Target = Device(id: nat) | FileSystem(id: nat)

  const EACCES := 13
  const ENODEV := 19
  const EMFILE := 24

  datatype Fd = Fd(dev: Option<Target>, priv: int, flags: bv32) {
    predicate Excl() { flags & FD_EXCL != 0 }
    predicate IsDev() { flags & FD_DEV != 0 }
    predicate On(d: Target) { dev == Some(d) }
  }

  datatype Table = Table(fds: seq<Fd>, maxFd: int) {

    predicate Locked(d: Target) {
      exists h :: 0 <= h < |fds| && fds[h].On(d) && fds[h].Excl()
    }

    /** Between calls. A free slot carries neither lock nor device bit; the high-water mark covers every
        descriptor beyond the standard three and every one marked as a device; and any other descriptor on
        a locked device has a higher index than the lock holder. */
    ghost predicate Inv() {
      && 3 <= |fds| && (maxFd == -1 || 3 <= maxFd < |fds|)
      && (forall i :: 0 <= i < 3 ==> fds[i].dev.Some?)
      && (forall i :: 0 <= i < |fds| ==> SlotOk(fds[i], i, maxFd))
      && (forall h, j :: 0 <= h < |fds| && 0 <= j < |fds| && h != j && fds[h].Excl() && fds[h].dev == fds[j].dev ==>
            h < j)
    }
  }

  ghost predicate SlotOk(f: Fd, i: int, maxFd: int) {
    && (f.Excl() ==> f.IsDev())
    && (f.IsDev() ==> f.dev.Some? && f.dev.value.Device? && i <= maxFd)
    && (f.dev.Some? && i >= 3 ==> i <= maxFd)
  }

  // ----- single descriptors -------------------------------------------------------------------

  /** How a descriptor looks right after open() has filled it in. */
  function Fresh(d: Target, flags: bv32, priv: int): Fd {
    var kept := flags & !FD_FLAGS_MASK;
    Fd(Some(d), priv, if d.Device? then kept | FD_DEV else kept)
  }

  function WithFlags(f: Fd, arg: bv32): Fd {
    f.(flags := (f.flags & !FCNTL_FLAGS_MASK) | (arg & FCNTL_FLAGS_MASK))
  }

  /** A new descriptor is on its target with the flags asked for, the reserved bits apart: it carries no lock,
      and the device bit when it is a device. */
  lemma FreshBits(d: Target, flags: bv32, priv: int)
    ensures !Fresh(d, flags, priv).Excl() && Fresh(d, flags, priv).IsDev() == d.Device?
    ensures Fresh(d, flags, priv).On(d) && Fresh(d, flags, priv).priv == priv
  {
  }

  lemma FreshFlags(d: Target, flags: bv32, priv: int)
    ensures Fresh(d, flags, priv).flags & !FD_FLAGS_MASK == flags & !FD_FLAGS_MASK
  {
  }

  /** Replacing the bits in `mask` leaves every bit outside it. */
  lemma MaskedUpdate(before: bv32, arg: bv32, mask: bv32, bit: bv32)
    requires mask & bit == 0
    ensures ((before & !mask) | (arg & mask)) & bit == before & bit
  {
  }

  /** fcntl cannot touch the lock and device bits. */
  lemma FcntlBits(f: Fd, arg: bv32)
    ensures WithFlags(f, arg).Excl() == f.Excl() && WithFlags(f, arg).IsDev() == f.IsDev()
  {
    MaskedUpdate(f.flags, arg, FCNTL_FLAGS_MASK, FD_EXCL);
    MaskedUpdate(f.flags, arg, FCNTL_FLAGS_MASK, FD_DEV);
  }

  /** fcntl sets the two flags it may write as asked, and changes nothing else. */
  lemma FlagsUpdated(f: Fd, arg: bv32)
    ensures WithFlags(f, arg).dev == f.dev && WithFlags(f, arg).priv == f.priv
    ensures FlagsSet(f.flags, WithFlags(f, arg).flags, arg)
  {
    SetMasked(f.flags, arg);
  }

  function WithLock(f: Fd): Fd {
    f.(flags := f.flags | FD_EXCL)
  }

  function WithoutLock(f: Fd): Fd {
    f.(flags := f.flags & !FD_EXCL)
  }

  lemma LockBits(f: Fd)
    ensures WithLock(f).Excl() && WithLock(f).IsDev() == f.IsDev()
    ensures !WithoutLock(f).Excl() && WithoutLock(f).IsDev() == f.IsDev()
  {
  }

  /** The lock changes one bit and nothing else. */
  lemma LockBitOnly(f: Fd)
    ensures WithLock(f) == f.(flags := WithLock(f).flags) && WithLock(f).flags & !FD_EXCL == f.flags & !FD_EXCL
  {
    OrBits(f.flags, FD_EXCL);
  }

  lemma UnlockBitOnly(f: Fd)
    ensures WithoutLock(f) == f.(flags := WithoutLock(f).flags)
    ensures WithoutLock(f).flags & !FD_EXCL == f.flags & !FD_EXCL
  {
    AndBits(f.flags, FD_EXCL);
  }

  // ----- the system calls ---------------------------------------------------------------------

  /** The lowest free slot from `i` on, or the size of the pool. */
  function FirstFree(fds: seq<Fd>, i: nat): (k: nat)
    requires i <= |fds|
    ensures i <= k <= |fds| && (k < |fds| ==> fds[k].dev.None?)
    ensures forall j :: i <= j < k ==> fds[j].dev.Some?
    decreases |fds| - i
  {
    if i == |fds| || fds[i].dev.None? then i else FirstFree(fds, i + 1)
  }

  function Max(a: int, b: int): int {
    if a > b then a else b
  }

  /** A table, with the value a call returns and the error number it sets (zero when it sets none). */
  datatype Outcome = Outcome(table: Table, rc: int, errno: int)

  /** open(): `found` is what the name was found to be; `status` and `priv` are what the driver's open
      callback returns and leaves behind. */
  function Open(t: Table, found: Option<Target>, flags: bv32, status: int, priv: int): Outcome {
    if found.None? then Outcome(t, -1, ENODEV)
    else
      var d, i := found.value, FirstFree(t.fds, 0);
      if i == |t.fds| then Outcome(t, -1, EMFILE)
      else
        var mark := Max(t.maxFd, i);
        if d.Device? && t.Locked(d) then
          Outcome(Table(t.fds[i := Fd(None, t.fds[i].priv, 0)], mark), -1, EACCES)
        else if status < 0 then
          Outcome(Table(t.fds[i := Fd(None, priv, 0)], mark), -1, -status)
        else
          Outcome(Table(t.fds[i := Fresh(d, flags, priv)], mark), i, 0)
  }

  /** close() after the driver's callback: the standard three keep their slot. */
  function Release(t: Table, i: nat): Table
    requires i < |t.fds|
  {
    if i > 2 then t.(fds := t.fds[i := t.fds[i].(dev := None, flags := 0)]) else t
  }

  /** Another descriptor below the high-water mark is on the same target. */
  predicate Shared(t: Table, i: nat)
    requires i < |t.fds|
  {
    exists j :: 0 <= j < t.maxFd && j < |t.fds| && j != i && t.fds[j].dev == t.fds[i].dev
  }

  /** ioctl(TIOCEXCL): the scan stops one short of the high-water mark. */
  function Lock(t: Table, i: nat): Outcome
    requires i < |t.fds|
  {
    if Shared(t, i) then Outcome(t, -EACCES, EACCES)
    else Outcome(t.(fds := t.fds[i := WithLock(t.fds[i])]), 0, 0)
  }

  function Unlock(t: Table, i: nat): Table
    requires i < |t.fds|
  {
    t.(fds := t.fds[i := WithoutLock(t.fds[i])])
  }

  function SetFlags(t: Table, i: nat, arg: bv32): Table
    requires i < |t.fds|
  {
    t.(fds := t.fds[i := WithFlags(t.fds[i], arg)])
  }

  /** Redirecting a standard descriptor: the new descriptor is copied over it and released. */
  function Redirect(t: Table, k: nat, found: Option<Target>, flags: bv32, status: int, priv: int): Table
    requires k < 3 <= |t.fds|
  {
    var o := Open(t, found, flags, status, priv);
    if o.rc < 0 || o.rc >= |o.table.fds| then o.table
    else Release(o.table.(fds := o.table.fds[k := o.table.fds[o.rc]]), o.rc)
  }

  datatype Op =
    | OpenOp(found: Option<Target>, flags: bv32, status: int, priv: int)
    | CloseOp(fd: nat)
    | LockOp(fd: nat)
    | UnlockOp(fd: nat)
    | FlagsOp(fd: nat, arg: bv32)
    | RedirectOp(fd: nat, found: Option<Target>, flags: bv32, status: int, priv: int)

  /** The descriptors named are in the pool, and open where the code needs it; the lock requests get
      through to the lock only on a descriptor marked as a device. */
  predicate Enabled(t: Table, op: Op) {
    match op
    case OpenOp(_, _, _, _) => true
    case CloseOp(i) => i < |t.fds| && t.fds[i].dev.Some?
    case LockOp(i) => i < |t.fds| && t.fds[i].IsDev()
    case UnlockOp(i) => i < |t.fds| && t.fds[i].IsDev()
    case FlagsOp(i, _) => i < |t.fds|
    case RedirectOp(i, _, _, _, _) => i < 3 <= |t.fds|
  }

  function Apply(t: Table, op: Op): Table
    requires Enabled(t, op)
  {
    match op
    case OpenOp(found, flags, status, priv) => Open(t, found, flags, status, priv).table
    case CloseOp(i) => Release(t, i)
    case LockOp(i) => Lock(t, i).table
    case UnlockOp(i) => Unlock(t, i)
    case FlagsOp(i, arg) => SetFlags(t, i, arg)
    case RedirectOp(k, found, flags, status, priv) => Redirect(t, k, found, flags, status, priv)
  }

  // ----- what every call keeps ----------------------------------------------------------------

  lemma OpenKeepsInv(t: Table, found: Option<Target>, flags: bv32, status: int, priv: int)
    requires t.Inv()
    ensures Open(t, found, flags, status, priv).table.Inv()
  {
    if found.Some? {
      FreshBits(found.value, flags, priv);
      assert !Fd(None, priv, 0).Excl() && !Fd(None, priv, 0).IsDev();
      var i := FirstFree(t.fds, 0);
      if i < |t.fds| {
        assert !Fd(None, t.fds[i].priv, 0).Excl() && !Fd(None, t.fds[i].priv, 0).IsDev();
      }
    }
  }

  lemma ReleaseKeepsInv(t: Table, i: nat)
    requires t.Inv() && i < |t.fds|
    ensures Release(t, i).Inv()
  {
    if i > 2 {
      var f := t.fds[i].(dev := None, flags := 0);
      assert !f.Excl() && !f.IsDev();
    }
  }

  lemma LockKeepsInv(t: Table, i: nat)
    requires t.Inv() && i < |t.fds| && t.fds[i].IsDev()
    ensures Lock(t, i).table.Inv()
  {
    LockBits(t.fds[i]);
  }

  lemma UnlockKeepsInv(t: Table, i: nat)
    requires t.Inv() && i < |t.fds|
    ensures Unlock(t, i).Inv()
  {
    LockBits(t.fds[i]);
  }

  lemma FlagsKeepInv(t: Table, i: nat, arg: bv32)
    requires t.Inv() && i < |t.fds|
    ensures SetFlags(t, i, arg).Inv()
  {
    FcntlBits(t.fds[i], arg);
  }

  lemma RedirectKeepsInv(t: Table, k: nat, found: Option<Target>, flags: bv32, status: int, priv: int)
    requires t.Inv() && k < 3
    ensures Redirect(t, k, found, flags, status, priv).Inv()
  {
    var o := Open(t, found, flags, status, priv);
    OpenKeepsInv(t, found, flags, status, priv);
    if 0 <= o.rc < |o.table.fds| {
      FreshBits(found.value, flags, priv);
      var copied := o.table.(fds := o.table.fds[k := o.table.fds[o.rc]]);
      assert copied.Inv();
      ReleaseKeepsInv(copied, o.rc);
    }
  }

  lemma ApplyKeepsInv(t: Table, op: Op)
    requires t.Inv() && Enabled(t, op)
    ensures Apply(t, op).Inv() && |Apply(t, op).fds| == |t.fds|
  {
    match op
    case OpenOp(found, flags, status, priv) => OpenKeepsInv(t, found, flags, status, priv);
    case CloseOp(i) => ReleaseKeepsInv(t, i);
    case LockOp(i) => LockKeepsInv(t, i);
    case UnlockOp(i) => UnlockKeepsInv(t, i);
    case FlagsOp(i, arg) => FlagsKeepInv(t, i, arg);
    case RedirectOp(k, found, flags, status, priv) => RedirectKeepsInv(t, k, found, flags, status, priv);
  }

  // ----- whole runs ---------------------------------------------------------------------------

  /** The pool at start-up: the standard three on the null device, all else free. */
  function Initial(size: nat, nullDev: nat): (t: Table)
    requires 3 <= size
    ensures t.Inv() && |t.fds| == size
  {
    Table(seq(size, i => if i < 3 then Fd(Some(Device(nullDev)), 0, 0) else Fd(None, 0, 0)), -1)
  }

  ghost predicate Legal(t: Table, ops: seq<Op>)
    decreases |ops|
  {
    ops != [] ==> Enabled(t, ops[0]) && Legal(Apply(t, ops[0]), ops[1..])
  }

  ghost function Run(t: Table, ops: seq<Op>): Table
    requires Legal(t, ops)
    decreases |ops|
  {
    if ops == [] then t else Run(Apply(t, ops[0]), ops[1..])
  }

  /** Over every run, no device ever has two lock holders, although the lock scan skips the high-water
      mark; and whatever else is open on a locked device has a higher index than the holder. */
  lemma {:induction false} OneHolder(t: Table, ops: seq<Op>)
    requires t.Inv() && Legal(t, ops)
    ensures var t' := Run(t, ops);
            && t'.Inv()
            && (forall h, j :: 0 <= h < |t'.fds| && 0 <= j < |t'.fds| && t'.fds[h].Excl() && t'.fds[j].Excl()
                               && t'.fds[h].dev == t'.fds[j].dev
                  ==> h == j)
    decreases |ops|
  {
    if ops != [] {
      ApplyKeepsInv(t, ops[0]);
      OneHolder(Apply(t, ops[0]), ops[1..]);
    }
  }

  /** A failed open leaves every open descriptor, and the target of every slot, as they were; of a free slot
      only the one it took and gave back loses flags that fcntl may have left there. */
  lemma FailedOpenHarmless(t: Table, found: Option<Target>, flags: bv32, status: int, priv: int)
    requires Open(t, found, flags, status, priv).rc < 0
    ensures var t' := Open(t, found, flags, status, priv).table;
            && |t'.fds| == |t.fds|
            && forall j :: 0 <= j < |t.fds| ==>
                 && t'.fds[j].dev == t.fds[j].dev
                 && (t.fds[j].dev.Some? ==> t'.fds[j] == t.fds[j])
                 && (t'.fds[j].flags == if found.Some? && j == FirstFree(t.fds, 0) then 0 else t.fds[j].flags)
  {
  }

  /** open() succeeds exactly when the name is found, a slot is free, the device is not locked and the
      driver agrees; the descriptor it returns is then the lowest one that was free. */
  lemma OpenSucceedsIff(t: Table, found: Option<Target>, flags: bv32, status: int, priv: int)
    requires t.Inv()
    ensures var o := Open(t, found, flags, status, priv);
            && (o.rc >= 0 <==>
                  && found.Some? && (exists j :: 0 <= j < |t.fds| && t.fds[j].dev.None?)
                  && !(found.value.Device? && t.Locked(found.value)) && status >= 0)
            && (o.rc >= 0 ==>
                  && o.rc < |t.fds| && t.fds[o.rc].dev.None? && (forall j :: 0 <= j < o.rc ==> t.fds[j].dev.Some?)
                  && o.table.fds == t.fds[o.rc := Fresh(found.value, flags, priv)])
  {
  }

  /** What open() answers when it fails, and what becomes of the high-water mark. */
  lemma OpenErrors(t: Table, found: Option<Target>, flags: bv32, status: int, priv: int)
    requires t.Inv()
    ensures var o := Open(t, found, flags, status, priv);
            var full := forall j :: 0 <= j < |t.fds| ==> t.fds[j].dev.Some?;
            && (o.rc < 0 ==> o.rc == -1)
            && (o.rc < 0 ==> o.errno == if found.None? then ENODEV
                                        else if full then EMFILE
                                        else if found.value.Device? && t.Locked(found.value) then EACCES
                                        else -status)
            && (found.None? || full ==> o.table == t)
            && (found.Some? && !full ==>
                  exists i :: 0 <= i < |t.fds| && t.fds[i].dev.None? && (forall j :: 0 <= j < i ==> t.fds[j].dev.Some?)
                    && o.table.maxFd == if i > t.maxFd then i else t.maxFd)
  {
    var i := FirstFree(t.fds, 0);
    if found.Some? && i < |t.fds| {
      assert t.fds[i].dev.None?;
      assert Open(t, found, flags, status, priv).table.maxFd == if i > t.maxFd then i else t.maxFd;
    }
  }

  /** A redirect changes descriptor `k` among those that are open, and no other: if the open succeeds, `k` is as
      the new descriptor was, and the slot that held that is free again. */
  lemma RedirectIs(t: Table, k: nat, found: Option<Target>, flags: bv32, status: int, priv: int)
    requires t.Inv() && k < 3
    ensures var o, t' := Open(t, found, flags, status, priv), Redirect(t, k, found, flags, status, priv);
            && |t'.fds| == |t.fds| && t'.maxFd == o.table.maxFd
            && t'.fds[k] == (if o.rc >= 0 then Fresh(found.value, flags, priv) else t.fds[k])
            && (forall j :: 0 <= j < |t.fds| && j != k ==>
                  && t'.fds[j].dev == t.fds[j].dev && (t.fds[j].dev.Some? ==> t'.fds[j] == t.fds[j]))
            && (o.rc >= 0 ==> 3 <= o.rc < |t.fds| && t'.fds[o.rc].dev.None? && t'.fds[o.rc].flags == 0)
  {
    OpenSucceedsIff(t, found, flags, status, priv);
    FailedOrNew(t, found, flags, status, priv);
  }

  /** close() frees every descriptor but the standard three, and only that one. */
  lemma ReleaseIs(t: Table, i: nat)
    requires i < |t.fds|
    ensures var t' := Release(t, i);
            && |t'.fds| == |t.fds| && t'.maxFd == t.maxFd
            && (forall j :: 0 <= j < |t.fds| && j != i ==> t'.fds[j] == t.fds[j])
            && (if i > 2 then t'.fds[i].dev.None? && t'.fds[i].flags == 0 else t'.fds[i] == t.fds[i])
  {
  }

  ghost function OpenOn(t: Table, d: Target): set<int> {
    set i | 0 <= i < |t.fds| && t.fds[i].On(d)
  }

  /** The call does not give up the lock of descriptor `h`: it does not unlock it, redirect over it or, for
      descriptors that can be released, close it. */
  predicate Spares(op: Op, h: nat) {
    match op
    case CloseOp(i) => i != h || h <= 2
    case UnlockOp(i) => i != h
    case RedirectOp(k, _, _, _, _) => k != h
    case _ => true
  }

  /** The lock that descriptor `h` holds on `d` is still there, and no descriptor on `d` was added. */
  ghost predicate StaysLocked(t: Table, t': Table, h: nat, d: Target) {
    h < |t.fds| == |t'.fds| && t'.fds[h].On(d) && t'.fds[h].Excl() && OpenOn(t', d) <= OpenOn(t, d)
  }

  lemma LockedRedirect(t: Table, k: nat, found: Option<Target>, flags: bv32, status: int, priv: int, h: nat, d: Target)
    requires t.Inv() && k < 3 && k != h
    requires h < |t.fds| && t.fds[h].On(d) && t.fds[h].Excl()
    ensures StaysLocked(t, Redirect(t, k, found, flags, status, priv), h, d)
  {
    var o := Open(t, found, flags, status, priv);
    OpenSucceedsIff(t, found, flags, status, priv);
    FailedOrNew(t, found, flags, status, priv);
    if o.rc >= 0 {
      assert d.Device? && found.value != d;
    }
  }

  lemma FailedOrNew(t: Table, found: Option<Target>, flags: bv32, status: int, priv: int)
    requires t.Inv()
    ensures var o := Open(t, found, flags, status, priv);
            && |o.table.fds| == |t.fds|
            && (forall j :: 0 <= j < |t.fds| && j != o.rc ==>
                  o.table.fds[j].dev == t.fds[j].dev && (t.fds[j].dev.Some? ==> o.table.fds[j] == t.fds[j]))
  {
  }

  /** Of one slot at most the flags change, or it is freed; the holder keeps its place and its lock. */
  lemma LockedUpdate(t: Table, t': Table, i: nat, h: nat, d: Target)
    requires h < |t.fds| && t.fds[h].On(d) && t.fds[h].Excl()
    requires i < |t.fds| == |t'.fds| && t'.fds == t.fds[i := t'.fds[i]]
    requires t'.fds[i].dev == t.fds[i].dev || (t'.fds[i].dev.None? && i != h)
    requires i == h ==> t'.fds[i].Excl()
    ensures StaysLocked(t, t', h, d)
  {
    assert forall j :: 0 <= j < |t.fds| && j != i ==> t'.fds[j] == t.fds[j];
  }

  lemma LockedOpen(t: Table, found: Option<Target>, flags: bv32, status: int, priv: int, h: nat, d: Target)
    requires t.Inv() && h < |t.fds| && t.fds[h].On(d) && t.fds[h].Excl()
    ensures StaysLocked(t, Open(t, found, flags, status, priv).table, h, d)
  {
    OpenSucceedsIff(t, found, flags, status, priv);
    FailedOrNew(t, found, flags, status, priv);
    if Open(t, found, flags, status, priv).rc >= 0 {
      assert d.Device? && found.value != d;
    }
  }

  lemma LockedMarks(t: Table, i: nat, h: nat, d: Target, arg: bv32)
    requires i < |t.fds| && h < |t.fds| && t.fds[h].On(d) && t.fds[h].Excl()
    ensures StaysLocked(t, Lock(t, i).table, h, d)
    ensures i != h ==> StaysLocked(t, Unlock(t, i), h, d)
    ensures StaysLocked(t, SetFlags(t, i, arg), h, d)
  {
    LockBits(t.fds[i]);
    LockedUpdate(t, Lock(t, i).table, i, h, d);
    if i != h {
      LockedUpdate(t, Unlock(t, i), i, h, d);
    }
    FcntlBits(t.fds[i], arg);
    LockedUpdate(t, SetFlags(t, i, arg), i, h, d);
  }

  lemma LockedStep(t: Table, op: Op, h: nat, d: Target)
    requires t.Inv() && Enabled(t, op) && Spares(op, h)
    requires h < |t.fds| && t.fds[h].On(d) && t.fds[h].Excl()
    ensures StaysLocked(t, Apply(t, op), h, d)
  {
    match op
    case OpenOp(found, flags, status, priv) => LockedOpen(t, found, flags, status, priv, h, d);
    case CloseOp(i) => LockedUpdate(t, Release(t, i), i, h, d);
    case LockOp(i) => LockedMarks(t, i, h, d, 0);
    case UnlockOp(i) => LockedMarks(t, i, h, d, 0);
    case FlagsOp(i, arg) => LockedMarks(t, i, h, d, arg);
    case RedirectOp(k, found, flags, status, priv) => LockedRedirect(t, k, found, flags, status, priv, h, d);
  }

  /** While a descriptor holds the lock of a device, over any run that does not give the lock up, the lock
      stays and no descriptor on that device is ever added. */
  lemma {:induction false} LockedDeviceNeverGrows(t: Table, ops: seq<Op>, h: nat, d: Target)
    requires t.Inv() && Legal(t, ops) && forall i :: 0 <= i < |ops| ==> Spares(ops[i], h)
    requires h < |t.fds| && t.fds[h].On(d) && t.fds[h].Excl()
    ensures var t' := Run(t, ops);
            && |t'.fds| == |t.fds| && t'.fds[h].On(d) && t'.fds[h].Excl()
            && OpenOn(t', d) <= OpenOn(t, d)
    decreases |ops|
  {
    if ops != [] {
      ApplyKeepsInv(t, ops[0]);
      LockedStep(t, ops[0], h, d);
      LockedDeviceNeverGrows(Apply(t, ops[0]), ops[1..], h, d);
    }
  }

  // ----- where the code falls short of its comments -------------------------------------------

  /** Closing the holder unlocks the device exactly when the descriptor is not one of the standard three. */
  lemma CloseUnlocksIff(t: Table, h: nat, d: Target)
    requires t.Inv() && h < |t.fds| && t.fds[h].On(d) && t.fds[h].Excl()
    ensures !Release(t, h).Locked(d) <==> h > 2
  {
  }

  /** Exactly when a granted lock is exclusive: the descriptor at the high-water mark, which the scan
      skips, is the holder itself or is on something else. */
  lemma GrantedIsSoleIff(t: Table, i: nat)
    requires t.Inv() && i < |t.fds| && t.fds[i].IsDev() && Lock(t, i).rc == 0
    ensures (forall j :: 0 <= j < |t.fds| && j != i ==> t.fds[j].dev != t.fds[i].dev)
       <==> i == t.maxFd || t.fds[t.maxFd].dev != t.fds[i].dev
  {
  }

  /** A run from start-up in which the lock is granted with a second descriptor open on the device. */
  lemma LockNotExclusive(size: nat, nullDev: nat, dev: nat)
    requires 5 <= size && dev != nullDev
    ensures var d := Some(Device(dev));
            var ops := [OpenOp(d, 0, 0, 0), OpenOp(d, 0, 0, 0), LockOp(3)];
            Legal(Initial(size, nullDev), ops)
            && var t := Run(Initial(size, nullDev), ops);
               |t.fds| == size && t.fds[3].Excl() && t.fds[3].dev == t.fds[4].dev == d
  {
    var d := Device(dev);
    var t0, f := Initial(size, nullDev), Fresh(d, 0, 0);
    FreshBits(d, 0, 0);
    var t1 := Table(t0.fds[3 := f], 3);
    FirstFreeIs(t0.fds, 3);
    assert Open(t0, Some(d), 0, 0, 0).table == t1;
    OpenKeepsInv(t0, Some(d), 0, 0, 0);
    assert !t1.Locked(d);
    var t2 := Table(t1.fds[4 := f], 4);
    FirstFreeIs(t1.fds, 4);
    assert Open(t1, Some(d), 0, 0, 0).table == t2;
    LockBits(f);
    assert !Shared(t2, 3);
    RunThree(t0, OpenOp(Some(d), 0, 0, 0), OpenOp(Some(d), 0, 0, 0), LockOp(3));
  }

  lemma FirstFreeIs(fds: seq<Fd>, k: nat)
    requires k < |fds| && fds[k].dev.None? && forall j :: 0 <= j < k ==> fds[j].dev.Some?
    ensures FirstFree(fds, 0) == k
  {
    var f := FirstFree(fds, 0);
    assert f <= k;
    assert fds[f].dev.None?;
  }

  lemma RunThree(t: Table, a: Op, b: Op, c: Op)
    requires Enabled(t, a) && Enabled(Apply(t, a), b) && Enabled(Apply(Apply(t, a), b), c)
    ensures Legal(t, [a, b, c]) && Run(t, [a, b, c]) == Apply(Apply(Apply(t, a), b), c)
  {
    var t1, t2 := Apply(t, a), Apply(Apply(t, a), b);
    RunEmpty(Apply(t2, c));
    RunOne(t2, c, []);
    assert [c] == [c] + [] && [b, c] == [b] + [c] && [a, b, c] == [a] + [b, c];
    RunOne(t1, b, [c]);
    RunOne(t, a, [b, c]);
  }

  lemma RunEmpty(t: Table)
    ensures Legal(t, []) && Run(t, []) == t
  {
  }

  lemma RunOne(t: Table, a: Op, ops: seq<Op>)
    requires Enabled(t, a) && Legal(Apply(t, a), ops)
    ensures Legal(t, [a] + ops) && Run(t, [a] + ops) == Run(Apply(t, a), ops)
  {
    assert ([a] + ops)[0] == a && ([a] + ops)[1..] == ops;
  }

  /** A run from start-up in which a lock outlives the close of its holder, a standard descriptor. */
  lemma StandardLockOutlivesClose(size: nat, nullDev: nat, dev: nat)
    requires 4 <= size && dev != nullDev
    ensures var d := Some(Device(dev));
            var ops := [RedirectOp(1, d, 0, 0, 0), LockOp(1), CloseOp(1)];
            Legal(Initial(size, nullDev), ops) && Run(Initial(size, nullDev), ops).Locked(d.value)
  {
    var d := Device(dev);
    var t0, f := Initial(size, nullDev), Fresh(d, 0, 0);
    FreshBits(d, 0, 0);
    FirstFreeIs(t0.fds, 3);
    var t1 := Apply(t0, RedirectOp(1, Some(d), 0, 0, 0));
    assert t1.fds[1] == f && t1.maxFd == 3;
    assert !Shared(t1, 1);
    LockBits(f);
    var t2 := Apply(t1, LockOp(1));
    assert t2.fds[1].On(d) && t2.fds[1].Excl();
    RunThree(t0, RedirectOp(1, Some(d), 0, 0, 0), LockOp(1), CloseOp(1));
  }
}
