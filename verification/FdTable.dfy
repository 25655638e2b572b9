/** The descriptor table of the HAL: the pool, its high-water mark, and the system calls that change them.
    Each call is proved to do what the table model says. */
module FdTable {
  import opened FdFlags
  import opened FdModel

  const EINVAL := 22
  const EBADFD := 81
  const ENOTTY := 25
  const O_RDONLY: bv32 := 0
  const O_WRONLY: bv32 := 1

  datatype IoctlRequest = TIOCEXCL | TIOCNXCL | OtherRequest(code: int)
  datatype FcntlCommand = F_GETFL | F_SETFL(arg: bv32) | OtherCommand(code: int)

  class Pool {
    const list: array<Fd>
    var maxFd: int
    var errno: int

    ghost function View(): Table
      reads this`maxFd, list
    {
      Table(list[..], maxFd)
    }

    ghost predicate Valid()
      reads this`maxFd, list
    {
      View().Inv()
    }

    constructor (size: nat, nullDev: nat)
      requires 3 <= size
      ensures Valid() && View() == Initial(size, nullDev) && fresh(list)
    {
      list := new Fd[size](i => if 0 <= i < 3 then Fd(Some(Device(nullDev)), 0, 0) else Fd(None, 0, 0));
      maxFd, errno := -1, 0;
      new;
      assert list[..] == Initial(size, nullDev).fds;
    }

    /** alt_get_fd: takes the lowest free slot and raises the high-water mark over it. */
    method GetFd(dev: Target) returns (rc: int)
      requires Valid()
      modifies this`maxFd, list
      ensures var i := old(FirstFree(list[..], 0));
              if i == list.Length then rc == -EMFILE && View() == old(View())
              else rc == i && View() == old(Table(list[..][i := list[i].(dev := Some(dev))], Max(maxFd, i)))
    {
      ghost var fds := list[..];
      for i := 0 to list.Length
        invariant list[..] == fds && maxFd == old(maxFd)
        invariant FirstFree(fds, 0) == FirstFree(fds, i)
      {
        if list[i].dev.None? {
          list[i] := list[i].(dev := Some(dev));
          if i > maxFd {
            maxFd := i;
          }
          return i;
        }
      }
      return -EMFILE;
    }

    /** alt_release_fd: the standard three are never released. */
    method ReleaseFd(fd: int)
      requires fd < list.Length
      modifies list
      ensures View() == if fd > 2 then Release(old(View()), fd) else old(View())
    {
      if fd > 2 {
        list[fd] := list[fd].(flags := 0);
        list[fd] := list[fd].(dev := None);
      }
    }

    /** alt_file_locked: marks the new descriptor as a device and looks for a lock holder, up to and
        including the high-water mark. */
    method FileLocked(fd: nat) returns (locked: bool)
      requires fd < list.Length && -1 <= maxFd < list.Length && list[fd].dev.Some?
      modifies list
      ensures list[..] == old(list[..])[fd := old(list[fd]).(flags := old(list[fd]).flags | FD_DEV)]
      ensures locked <==> HolderBelow(old(list[..]), maxFd, fd, old(list[fd]).dev.value)
    {
      ghost var fds, d := list[..], list[fd].dev.value;
      list[fd] := list[fd].(flags := list[fd].flags | FD_DEV);
      ghost var marked := list[..];
      for i := 0 to maxFd + 1
        invariant list[..] == marked
        invariant forall h :: 0 <= h < i ==> !(h != fd && fds[h].On(d) && fds[h].Excl())
      {
        if list[i].dev == list[fd].dev && list[i].flags & FD_EXCL != 0 && i != fd {
          assert fds[i] == marked[i];
          return true;
        }
        assert i != fd ==> fds[i] == marked[i];
      }
      return false;
    }

    /** Gives the new descriptor its flags and looks for a lock holder, which only devices can have. */
    method Admit(index: nat, dev: Target, flags: bv32) returns (busy: bool)
      requires index < list.Length && -1 <= maxFd < list.Length && list[index].dev == Some(dev)
      modifies list
      ensures list[..] == old(list[..])[index := Fresh(dev, flags, old(list[index]).priv)]
      ensures busy <==> dev.Device? && HolderBelow(old(list[..]), maxFd, index, dev)
    {
      ghost var fds := list[..];
      list[index] := list[index].(flags := flags & !FD_FLAGS_MASK);
      HolderElsewhere(fds, list[..], maxFd, index, dev);
      busy := false;
      if dev.Device? {
        busy := FileLocked(index);
      }
    }

    /** What open() does with the slot it got, up to its clean-up. */
    method FillIn(index: nat, dev: Target, flags: bv32, status: int, priv: int) returns (result: int)
      requires index < list.Length && -1 <= maxFd < list.Length && list[index].dev == Some(dev)
      modifies list
      ensures var fds := old(list[..]);
              var busy := dev.Device? && HolderBelow(fds, maxFd, index, dev);
              && result == (if busy then -EACCES else status)
              && list[..] == fds[index := Fresh(dev, flags, if busy then fds[index].priv else priv)]
    {
      var locked := Admit(index, dev, flags);
      if locked {
        result := -EACCES;
      } else {
        list[index] := list[index].(priv := priv);
        result := status;
      }
    }

    /** open(). `found` is the outcome of the name lookup, `status` and `priv` that of the driver's callback. */
    method OpenFile(found: Option<Target>, flags: bv32, status: int, priv: int) returns (rc: int)
      requires Valid()
      modifies this`maxFd, this`errno, list
      ensures var o := Open(old(View()), found, flags, status, priv);
              View() == o.table && rc == o.rc && errno == if o.rc < 0 then o.errno else old(errno)
      ensures Valid()
    {
      OpenKeepsInv(View(), found, flags, status, priv);
      var index, result := -1, -ENODEV;
      match found {
        case None =>
        case Some(dev) =>
          ghost var t := View();
          index := GetFd(dev);
          if index < 0 {
            result := index;
          } else {
            HolderIffLocked(t, index, dev, View());
            result := FillIn(index, dev, flags, status, priv);
          }
      }
      rc := Conclude(index, result);
    }

    /** The end of open(): a failure gives the slot back. */
    method Conclude(index: int, result: int) returns (rc: int)
      requires index < list.Length
      modifies this`errno, list
      ensures View() == if result < 0 && index > 2 then Release(old(View()), index) else old(View())
      ensures rc == (if result < 0 then -1 else index) && errno == if result < 0 then -result else old(errno)
    {
      if result < 0 {
        ReleaseFd(index);
        errno := -result;
        return -1;
      }
      return index;
    }

    /** alt_fd_lock: grants the lock unless another descriptor below the high-water mark is on the target. */
    method FdLock(fd: nat) returns (rc: int)
      requires fd < list.Length && maxFd <= list.Length
      modifies list
      ensures var o := Lock(old(View()), fd); View() == o.table && rc == o.rc
    {
      ghost var t := View();
      for i := 0 to if maxFd < 0 then 0 else maxFd
        invariant View() == t
        invariant forall j :: 0 <= j < i ==> j == fd || list[j].dev != list[fd].dev
      {
        if i != fd && list[i].dev == list[fd].dev {
          assert t.fds[i].dev == t.fds[fd].dev;
          return -EACCES;
        }
      }
      assert forall j :: 0 <= j < t.maxFd ==> j == fd || t.fds[j].dev != t.fds[fd].dev;
      list[fd] := list[fd].(flags := list[fd].flags | FD_EXCL);
      return 0;
    }

    /** alt_fd_unlock. */
    method FdUnlock(fd: nat) returns (rc: int)
      requires fd < list.Length
      modifies list
      ensures View() == Unlock(old(View()), fd) && rc == 0
    {
      list[fd] := list[fd].(flags := list[fd].flags & !FD_EXCL);
      return 0;
    }

    /** ioctl(). `driver` is the outcome of the driver's ioctl callback, if it has one. The lock requests
        reach the lock only on a descriptor marked as a device. */
    method Ioctl(file: int, req: IoctlRequest, driver: Option<int>) returns (rc: int)
      requires Valid() && file < list.Length && (file >= 0 ==> list[file].dev.Some?)
      modifies this`errno, list
      ensures if file < 0 then View() == old(View()) && rc == -EBADFD
              else if old(list[file]).IsDev() && req.TIOCEXCL? then
                var o := Lock(old(View()), file); View() == o.table && rc == o.rc
              else if old(list[file]).IsDev() && req.TIOCNXCL? then
                View() == Unlock(old(View()), file) && rc == 0
              else View() == old(View()) && rc == if driver.Some? then driver.value else -ENOTTY
      ensures errno == if rc < 0 then -rc else old(errno)
      ensures Valid()
    {
      if file < 0 {
        rc := -EBADFD;
      } else if list[file].flags & FD_DEV != 0 && req.TIOCEXCL? {
        LockKeepsInv(View(), file);
        rc := FdLock(file);
      } else if list[file].flags & FD_DEV != 0 && req.TIOCNXCL? {
        UnlockKeepsInv(View(), file);
        rc := FdUnlock(file);
      } else if driver.Some? {
        rc := driver.value;
      } else {
        rc := -ENOTTY;
      }
      if rc < 0 {
        errno := -rc;
      }
    }

    method ReplaceFlags(fd: nat, arg: bv32)
      requires fd < list.Length
      modifies list
      ensures View() == SetFlags(old(View()), fd, arg)
    {
      list[fd] := list[fd].(flags := list[fd].flags & !FCNTL_FLAGS_MASK);
      list[fd] := list[fd].(flags := list[fd].flags | (arg & FCNTL_FLAGS_MASK));
    }

    /** fcntl(). The value read leaves out the lock and device bits, and a write cannot change them. */
    method Fcntl(file: int, cmd: FcntlCommand) returns (rc: int, value: bv32)
      requires Valid() && file < list.Length
      modifies this`errno, list
      ensures View() == if file >= 0 && cmd.F_SETFL? then SetFlags(old(View()), file, cmd.arg) else old(View())
      ensures rc == (if file < 0 || cmd.OtherCommand? then -1 else 0)
      ensures errno == if file < 0 then EBADFD else if cmd.OtherCommand? then EINVAL else old(errno)
      ensures rc == 0 && cmd.F_GETFL? ==> value == Visible(list[file].flags)
      ensures rc == 0 && cmd.F_SETFL? ==>
                && FlagsSet(old(list[file]).flags, list[file].flags, cmd.arg)
                && list[..] == old(list[..])[file := old(list[file]).(flags := list[file].flags)]
      ensures Valid()
    {
      value := 0;
      if file < 0 {
        errno := EBADFD;
        return -1, value;
      }
      match cmd {
        case F_GETFL =>
          return 0, list[file].flags & !FD_FLAGS_MASK;
        case F_SETFL(arg) =>
          FlagsKeepInv(View(), file, arg);
          FlagsUpdated(list[file], arg);
          ReplaceFlags(file, arg);
          return 0, value;
        case OtherCommand(_) =>
          errno := EINVAL;
          return -1, value;
      }
    }

    /** F_SETFL, then F_GETFL. */
    method SetThenGetFlags(file: nat, arg: bv32) returns (value: bv32)
      requires Valid() && file < list.Length
      modifies this`errno, list
      ensures ReadsBack(old(list[file]).flags, arg, value)
      ensures Valid()
    {
      var rc, v := Fcntl(file, F_SETFL(arg));
      rc, value := Fcntl(file, F_GETFL);
    }

    /** close(). `status` is the outcome of the driver's close callback, zero if it has none; the slot is
        released whatever the driver answers. */
    method CloseFile(file: int, status: int) returns (rc: int)
      requires Valid() && file < list.Length && (file >= 0 ==> list[file].dev.Some?)
      modifies this`errno, list
      ensures View() == if file < 0 then old(View()) else Release(old(View()), file)
      ensures rc == if file < 0 || status < 0 then -1 else 0
      ensures errno == if file < 0 then EBADFD else if status < 0 then -status else old(errno)
      ensures Valid()
    {
      if file < 0 {
        errno := EBADFD;
        return -1;
      }
      ReleaseKeepsInv(View(), file);
      ReleaseFd(file);
      if status < 0 {
        errno := -status;
        return -1;
      }
      return 0;
    }

    /** alt_open_fd: opens the name and moves the new descriptor over descriptor `k`. */
    method OpenOver(k: nat, found: Option<Target>, flags: bv32, status: int, priv: int)
      requires Valid() && k < 3
      modifies this`maxFd, this`errno, list
      ensures View() == Redirect(old(View()), k, found, flags, status, priv)
      ensures Valid()
    {
      RedirectKeepsInv(View(), k, found, flags, status, priv);
      OpenSucceedsIff(View(), found, flags, status, priv);
      var fd := OpenFile(found, flags, status, priv);
      if fd >= 0 {
        list[k] := list[k].(dev := list[fd].dev);
        list[k] := list[k].(priv := list[fd].priv);
        list[k] := list[k].(flags := list[fd].flags);
        ReleaseFd(fd);
      }
    }

    /** alt_io_redirect: standard output, then input, then error. */
    method IoRedirect(out: Option<Target>, inp: Option<Target>, err: Option<Target>,
                      status: seq<int>, priv: seq<int>)
      requires Valid() && |status| == |priv| == 3
      modifies this`maxFd, this`errno, list
      ensures View() == (var t1 := Redirect(old(View()), 1, out, O_WRONLY, status[0], priv[0]);
                         var t0 := Redirect(t1, 0, inp, O_RDONLY, status[1], priv[1]);
                         Redirect(t0, 2, err, O_WRONLY, status[2], priv[2]))
      ensures Valid()
    {
      OpenOver(1, out, O_WRONLY, status[0], priv[0]);
      OpenOver(0, inp, O_RDONLY, status[1], priv[1]);
      OpenOver(2, err, O_WRONLY, status[2], priv[2]);
    }
  }

  /** The scan of alt_file_locked finds a holder of `d` other than descriptor `fd`. */
  ghost predicate HolderBelow(fds: seq<Fd>, mark: int, fd: int, d: Target) {
    exists h :: 0 <= h <= mark && h < |fds| && h != fd && fds[h].On(d) && fds[h].Excl()
  }

  lemma HolderElsewhere(a: seq<Fd>, b: seq<Fd>, mark: int, fd: nat, d: Target)
    requires fd < |a| == |b| && b == a[fd := b[fd]]
    ensures HolderBelow(a, mark, fd, d) <==> HolderBelow(b, mark, fd, d)
  {
    assert forall h :: 0 <= h < |a| && h != fd ==> a[h] == b[h];
  }

  /** Once the free slot `i` has been taken for `d`, that scan says whether `d` was locked before. */
  lemma HolderIffLocked(t: Table, i: nat, d: Target, t': Table)
    requires t.Inv() && i < |t.fds| && t.fds[i].dev.None?
    requires t' == Table(t.fds[i := t.fds[i].(dev := Some(d))], Max(t.maxFd, i))
    ensures HolderBelow(t'.fds, t'.maxFd, i, d) <==> t.Locked(d)
  {
    if t.Locked(d) {
      var h :| 0 <= h < |t.fds| && t.fds[h].On(d) && t.fds[h].Excl();
      assert t'.fds[h] == t.fds[h];
    }
    if HolderBelow(t'.fds, t'.maxFd, i, d) {
      var h :| 0 <= h <= t'.maxFd && h < |t'.fds| && h != i && t'.fds[h].On(d) && t'.fds[h].Excl();
      assert t.fds[h] == t'.fds[h];
    }
  }
}
