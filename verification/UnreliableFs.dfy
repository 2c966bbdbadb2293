/** The operations of unreliablefs_ops.c as they are written: inject first, then make the system calls,
    which change the base file system, the descriptor table and fi->fh. */
module UnreliableFs {
  import opened FaultConfig
  import opened FaultResolution
  import opened FaultEngine
  import opened Dispatch

  class Fs<F, N> {
    const base: Base<F, N>
    const engine: Engine
    var fs: F
    var fds: map<nat, N>
    var fh: map<Handle, nat>
    var errno: int

    constructor (base: Base<F, N>, engine: Engine, fs: F)
      requires engine.Valid() && !engine.locked
      ensures Valid() && this.base == base && this.engine == engine
      ensures Abs() == Daemon(State(fs, map[], map[]), engine.State())
    {
      this.base, this.engine, this.fs, fds, fh, errno := base, engine, fs, map[], map[], 0;
    }

    ghost predicate Valid()
      reads this, engine
    {
      engine.Valid() && !engine.locked
    }

    ghost function Abs(): Daemon<F, N>
      requires Valid()
      reads this, engine
    {
      Daemon(State(fs, fds, fh), engine.State())
    }

    ghost function St(): State<F, N>
      reads this
    {
      State(fs, fds, fh)
    }

    /** The operation c was served as specified, with this injection result, return value and data. */
    twostate predicate Served(c: FuseCall, rc: int, ret: int, data: Bytes)
      requires old(Valid())
      reads this, engine
    {
      Valid() && (Abs(), Event(c, rc, Reply(ret, data))) == Serve(base, engine.env, engine.configPath, old(Abs()), c)
    }

    /** What an injected code does: 999 answers 0, any other is the answer, and nothing else happens. */
    twostate predicate Injected(rc: int, ret: int)
      reads this
    {
      rc != 0 ==> ret == (if rc == 999 then 0 else rc) && fs == old(fs) && fds == old(fds) && fh == old(fh)
    }

    /** The base file system did r, and the answer is 0 or its negated errno. */
    twostate predicate Did(new r: (F, Sys<int>), ret: int)
      reads this
    {
      fs == r.0 && fds == old(fds) && fh == old(fh) && ret == if r.1.Err? then 0 - r.1.errno else 0
    }

    /** The base file system opened or failed to open a file for handle fi, which gets the lowest descriptor
        not in use. */
    twostate predicate DidOpen(new r: (F, Sys<N>), fi: Handle, ret: int)
      reads this
    {
      && fs == r.0
      && (r.1.Err? ==> ret == 0 - r.1.errno && fds == old(fds) && fh == old(fh))
      && (r.1.Ok? ==>
           && ret == 0 && fi in fh && fh == old(fh)[fi := fh[fi]]
           && fh[fi] !in old(fds) && (forall i :: 0 <= i < fh[fi] ==> i in old(fds))
           && fds == old(fds)[fh[fi] := r.1.value])
    }

    ghost predicate DidRead(r: (F, Sys<Bytes>), ret: int, buf: Bytes)
      reads this
    {
      fs == r.0 && if r.1.Err? then ret == 0 - r.1.errno && buf == [] else ret == |r.1.value| && buf == r.1.value
    }

    ghost predicate DidWrite(r: (F, Sys<nat>), ret: int)
      reads this
    {
      fs == r.0 && ret == if r.1.Err? then 0 - r.1.errno else r.1.value as int
    }

    /** fi->fh. */
    ghost function Fd(fi: Handle): nat
      reads this
    {
      if fi in fh then fh[fi] else 0
    }

    // ----- system calls -----

    /** open(2) and creat: the lowest free descriptor, or -1 with errno set. */
    method SysOpen(path: string, flags: int, create: bool, mode: int) returns (fd: int)
      modifies this`fs, this`fds, this`errno
      ensures var r := if create then base.creat(old(fs), path, flags, mode) else base.open(old(fs), path, flags);
        && fs == r.0
        && (r.1.Ok? ==> fd == LowestFree(old(fds), 0) && fds == old(fds)[fd := r.1.value])
        && (r.1.Err? ==> fd == -1 && fds == old(fds) && errno == r.1.errno)
    {
      var r := if create then base.creat(fs, path, flags, mode) else base.open(fs, path, flags);
      fs := r.0;
      match r.1 {
        case Ok(node) =>
          var lowest := LowestFree(fds, 0);
          fd, fds := lowest, fds[lowest := node];
        case Err(e) =>
          fd, errno := -1, e;
      }
    }

    method SysClose(fd: int) returns (ret: int)
      modifies this`fds, this`errno
      ensures fd in old(fds) ==> ret == 0 && fds == old(fds) - {fd} && errno == old(errno)
      ensures fd !in old(fds) ==> ret == -1 && fds == old(fds) && errno == EBADF
    {
      if fd in fds {
        fds := fds - {fd};
        ret := 0;
      } else {
        ret, errno := -1, EBADF;
      }
    }

    method SysDup(fd: int) returns (ret: int)
      modifies this`fds, this`errno
      ensures fd in old(fds) ==> ret == LowestFree(old(fds), 0) && fds == old(fds)[ret := old(fds)[fd]]
      ensures fd !in old(fds) ==> ret == -1 && fds == old(fds) && errno == EBADF
    {
      if fd in fds {
        var lowest := LowestFree(fds, 0);
        ret, fds := lowest, fds[lowest := fds[fd]];
      } else {
        ret, errno := -1, EBADF;
      }
    }

    method SysPread(fd: int, size: nat, offset: int) returns (ret: int, buf: Bytes)
      modifies this`fs, this`errno
      ensures fd in fds ==>
        var p := Pread(base, old(fs), fds[fd], size, offset);
        fs == p.0 && buf == p.1.data && (if ret == -1 then p.1.ret == 0 - errno else p.1.ret == ret)
      ensures fd !in fds ==> ret == -1 && buf == [] && fs == old(fs) && errno == EBADF
    {
      ret, buf := -1, [];
      if fd !in fds {
        errno := EBADF;
        return;
      }
      var r := base.pread(fs, fds[fd], size, offset);
      fs := r.0;
      match r.1 {
        case Ok(bytes) => ret, buf := |bytes|, bytes;
        case Err(e) => errno := e;
      }
    }

    method SysPwrite(fd: int, data: Bytes, offset: int) returns (ret: int)
      modifies this`fs, this`errno
      ensures fd in fds ==>
        var p := Pwrite(base, old(fs), fds[fd], data, offset);
        fs == p.0 && p.1.data == [] && (if ret == -1 then p.1.ret == 0 - errno else p.1.ret == ret)
      ensures fd !in fds ==> ret == -1 && fs == old(fs) && errno == EBADF
    {
      ret := -1;
      if fd !in fds {
        errno := EBADF;
        return;
      }
      var r := base.pwrite(fs, fds[fd], data, offset);
      fs := r.0;
      match r.1 {
        case Ok(n) => ret := n;
        case Err(e) => errno := e;
      }
    }

    /** mkdir, unlink, rename and truncate: 0, or -1 with errno set. */
    method SysPlain(r: (F, Sys<int>)) returns (ret: int)
      modifies this`fs, this`errno
      ensures fs == r.0
      ensures ret == if r.1.Err? then -1 else 0
      ensures r.1.Err? ==> errno == r.1.errno
    {
      fs := r.0;
      match r.1 {
        case Ok(_) => ret := 0;
        case Err(e) => ret, errno := -1, e;
      }
    }

    method ErrorInject(path: string, op: Op) returns (ret: int)
      requires Valid()
      modifies engine
      ensures Valid()
      ensures var i := Inject(engine.env, engine.configPath, old(engine.State()), Request(path, op, base.disk(fs)));
        engine.State() == i.0 && ret == i.1.rc
    {
      var a := engine.ErrorInject(Request(path, op, base.disk(fs)));
      ret := a.rc;
    }

    // ----- the operations -----

    method Mkdir(path: string, mode: int) returns (ret: int, ghost rc: int)
      requires Valid()
      modifies this, engine
      ensures Served(MkdirCall(path, mode), rc, ret, [])
      ensures Injected(rc, ret)
      ensures rc == 0 ==> Did(base.mkdir(old(fs), path, mode), ret)
    {
      hide Inject;
      ret := ErrorInject(path, Op.Mkdir);
      rc := ret;
      if ret == NOOP_CODE {
        return 0, rc;
      } else if ret != 0 {
        return;
      }
      ret := SysPlain(base.mkdir(fs, path, mode));
      if ret == -1 {
        return 0 - errno, rc;
      }
      return 0, rc;
    }

    method Unlink(path: string) returns (ret: int, ghost rc: int)
      requires Valid()
      modifies this, engine
      ensures Served(UnlinkCall(path), rc, ret, [])
      ensures Injected(rc, ret)
      ensures rc == 0 ==> Did(base.unlink(old(fs), path), ret)
    {
      hide Inject;
      ret := ErrorInject(path, Op.Unlink);
      rc := ret;
      if ret == NOOP_CODE {
        return 0, rc;
      } else if ret != 0 {
        return;
      }
      ret := SysPlain(base.unlink(fs, path));
      if ret == -1 {
        return 0 - errno, rc;
      }
      return 0, rc;
    }

    method Rename(path: string, newpath: string) returns (ret: int, ghost rc: int)
      requires Valid()
      modifies this, engine
      ensures Served(RenameCall(path, newpath), rc, ret, [])
      ensures Injected(rc, ret)
      ensures rc == 0 ==> Did(base.rename(old(fs), path, newpath), ret)
    {
      hide Inject;
      ret := ErrorInject(path, Op.Rename);
      rc := ret;
      if ret == NOOP_CODE {
        return 0, rc;
      } else if ret != 0 {
        return;
      }
      ret := SysPlain(base.rename(fs, path, newpath));
      if ret == -1 {
        return 0 - errno, rc;
      }
      return 0, rc;
    }

    method Truncate(path: string, length: int) returns (ret: int, ghost rc: int)
      requires Valid()
      modifies this, engine
      ensures Served(TruncateCall(path, length), rc, ret, [])
      ensures Injected(rc, ret)
      ensures rc == 0 ==> Did(base.truncate(old(fs), path, length), ret)
    {
      hide Inject;
      ret := ErrorInject(path, Op.Truncate);
      rc := ret;
      if ret == NOOP_CODE {
        return 0, rc;
      } else if ret != 0 {
        return;
      }
      ret := SysPlain(base.truncate(fs, path, length));
      if ret == -1 {
        return 0 - errno, rc;
      }
      return 0, rc;
    }

    method Open(path: string, fi: Handle, flags: int) returns (ret: int, ghost rc: int)
      requires Valid()
      modifies this, engine
      ensures Served(OpenCall(path, fi, flags), rc, ret, [])
      ensures Injected(rc, ret)
      ensures rc == 0 ==> DidOpen(base.open(old(fs), path, flags), fi, ret)
    {
      hide Inject, LowestFree;
      ret := ErrorInject(path, Op.Open);
      rc := ret;
      if ret == NOOP_CODE {
        return 0, rc;
      } else if ret != 0 {
        return;
      }
      ret := SysOpen(path, flags, false, 0);
      if ret == -1 {
        return 0 - errno, rc;
      }
      fh := fh[fi := ret];
      return 0, rc;
    }

    method Create(path: string, fi: Handle, flags: int, mode: int) returns (ret: int, ghost rc: int)
      requires Valid()
      modifies this, engine
      ensures Served(CreateCall(path, fi, flags, mode), rc, ret, [])
      ensures Injected(rc, ret)
      ensures rc == 0 ==> DidOpen(base.creat(old(fs), path, flags, mode), fi, ret)
    {
      hide Inject, LowestFree;
      ret := ErrorInject(path, Op.Create);
      rc := ret;
      if ret == NOOP_CODE {
        return 0, rc;
      } else if ret != 0 {
        return;
      }
      ret := SysOpen(path, flags, true, mode);
      if ret == -1 {
        return 0 - errno, rc;
      }
      fh := fh[fi := ret];
      return 0, rc;
    }

    method Read(path: string, size: nat, offset: int, fi: Option<Handle>) returns (ret: int, buf: Bytes, ghost rc: int)
      requires Valid()
      modifies this, engine
      ensures Served(ReadCall(path, size, offset, fi), rc, ret, buf)
      ensures fds == old(fds) && fh == old(fh)
      ensures Injected(rc, ret) && (rc != 0 ==> buf == [])
      ensures rc == 0 && fi.None? ==>
        var o := base.open(old(fs), path, 0);
        if o.1.Err? then fs == o.0 && ret == 0 - o.1.errno && buf == []
        else DidRead(base.pread(o.0, o.1.value, size, offset), ret, buf)
      ensures rc == 0 && fi.Some? ==>
        if Fd(fi.value) !in fds then fs == old(fs) && ret == -9 && buf == []
        else DidRead(base.pread(old(fs), fds[Fd(fi.value)], size, offset), ret, buf)
    {
      hide Inject;
      buf := [];
      ret := ErrorInject(path, Op.Read);
      rc := ret;
      if ret == NOOP_CODE {
        return 0, [], rc;
      } else if ret != 0 {
        return;
      }
      ret, buf := ReadFile(path, size, offset, fi);
    }

    /** The read itself: without a handle, on a file opened for just this call. */
    method ReadFile(path: string, size: nat, offset: int, fi: Option<Handle>) returns (ret: int, buf: Bytes)
      modifies this`fs, this`fds, this`errno
      ensures (St(), Reply(ret, buf)) == Forward(base, old(St()), ReadCall(path, size, offset, fi))
      ensures fds == old(fds)
    {
      hide LowestFree, Pread;
      buf := [];
      var fd: int;
      if fi.None? {
        fd := SysOpen(path, O_RDONLY, false, 0);
      } else {
        fd := if fi.value in fh then fh[fi.value] else 0;
      }
      if fd == -1 {
        return 0 - errno, [];
      }
      ret, buf := SysPread(fd, size, offset);
      if ret == -1 {
        ret := 0 - errno;
      }
      if fi.None? {
        var closed := SysClose(fd);
        assert fds == old(fds);
      }
    }

    method Write(path: string, data: Bytes, offset: int, fi: Option<Handle>) returns (ret: int, ghost rc: int)
      requires Valid()
      modifies this, engine
      ensures Served(WriteCall(path, data, offset, fi), rc, ret, [])
      ensures fds == old(fds) && fh == old(fh)
      ensures Injected(rc, ret)
      ensures rc == 0 && fi.None? ==>
        var o := base.open(old(fs), path, 1);
        if o.1.Err? then fs == o.0 && ret == 0 - o.1.errno
        else DidWrite(base.pwrite(o.0, o.1.value, data, offset), ret)
      ensures rc == 0 && fi.Some? ==>
        if Fd(fi.value) !in fds then fs == old(fs) && ret == -9
        else DidWrite(base.pwrite(old(fs), fds[Fd(fi.value)], data, offset), ret)
    {
      hide Inject;
      ret := ErrorInject(path, Op.Write);
      rc := ret;
      if ret == NOOP_CODE {
        return 0, rc;
      } else if ret != 0 {
        return;
      }
      ret := WriteFile(path, data, offset, fi);
    }

    /** The write itself: without a handle, on a file opened for just this call. */
    method WriteFile(path: string, data: Bytes, offset: int, fi: Option<Handle>) returns (ret: int)
      modifies this`fs, this`fds, this`errno
      ensures (St(), Reply(ret, [])) == Forward(base, old(St()), WriteCall(path, data, offset, fi))
      ensures fds == old(fds)
    {
      hide LowestFree, Pwrite;
      var fd: int;
      if fi.None? {
        fd := SysOpen(path, O_WRONLY, false, 0);
      } else {
        fd := if fi.value in fh then fh[fi.value] else 0;
      }
      if fd == -1 {
        return 0 - errno;
      }
      ret := SysPwrite(fd, data, offset);
      if ret == -1 {
        ret := 0 - errno;
      }
      if fi.None? {
        var closed := SysClose(fd);
        assert fds == old(fds);
      }
    }

    /** close(dup(fi->fh)): the copy is closed at once, so the descriptor table stays as it was. */
    method Flush(path: string, fi: Handle) returns (ret: int, ghost rc: int)
      requires Valid()
      modifies this, engine
      ensures Served(FlushCall(path, fi), rc, ret, [])
      ensures fds == old(fds) && fh == old(fh) && fs == old(fs)
      ensures Injected(rc, ret)
      ensures rc == 0 ==> ret == if Fd(fi) in fds then 0 else -9
    {
      hide Inject, LowestFree;
      ret := ErrorInject(path, Op.Flush);
      rc := ret;
      if ret == NOOP_CODE {
        return 0, rc;
      } else if ret != 0 {
        return;
      }
      var copy := SysDup(if fi in fh then fh[fi] else 0);
      ret := SysClose(copy);
      assert fds == old(fds);
      if ret == -1 {
        return 0 - errno, rc;
      }
      return 0, rc;
    }

    method Release(path: string, fi: Handle) returns (ret: int, ghost rc: int)
      requires Valid()
      modifies this, engine
      ensures Served(ReleaseCall(path, fi), rc, ret, [])
      ensures Injected(rc, ret)
      ensures rc == 0 ==> fs == old(fs) && fh == old(fh) && fds == old(fds) - {Fd(fi)} && ret == if Fd(fi) in old(fds) then 0 else -9
    {
      hide Inject;
      ret := ErrorInject(path, Op.Release);
      rc := ret;
      if ret == NOOP_CODE {
        return 0, rc;
      } else if ret != 0 {
        return;
      }
      ret := SysClose(if fi in fh then fh[fi] else 0);
      if ret == -1 {
        return 0 - errno, rc;
      }
      return 0, rc;
    }

    /** One FUSE request, handed to the operation that serves it. */
    method Handle(c: FuseCall) returns (ghost e: Event)
      requires Valid()
      modifies this, engine
      ensures Valid() && (Abs(), e) == Serve(base, engine.env, engine.configPath, old(Abs()), c)
    {
      hide Serve;
      var ret: int;
      var buf: Bytes := [];
      ghost var rc: int;
      match c {
        case MkdirCall(path, mode) => ret, rc := Mkdir(path, mode);
        case UnlinkCall(path) => ret, rc := Unlink(path);
        case RenameCall(path, newpath) => ret, rc := Rename(path, newpath);
        case TruncateCall(path, length) => ret, rc := Truncate(path, length);
        case OpenCall(path, fi, flags) => ret, rc := Open(path, fi, flags);
        case CreateCall(path, fi, flags, mode) => ret, rc := Create(path, fi, flags, mode);
        case ReadCall(path, size, offset, fi) => ret, buf, rc := Read(path, size, offset, fi);
        case WriteCall(path, data, offset, fi) => ret, rc := Write(path, data, offset, fi);
        case FlushCall(path, fi) => ret, rc := Flush(path, fi);
        case ReleaseCall(path, fi) => ret, rc := Release(path, fi);
      }
      e := Event(c, rc, Reply(ret, buf));
    }

    /** A whole run: what it does is what the specification says, so faults strike before an operation or
        not at all. */
    method Run(cs: seq<FuseCall>) returns (ghost events: seq<Event>)
      requires Valid()
      modifies this, engine
      ensures Valid() && (Abs(), events) == ServeAll(base, engine.env, engine.configPath, old(Abs()), cs)
      ensures Explained(base, old(Abs()), Abs(), events) && CallsOf(events) == cs
    {
      hide Serve, Abs, Explained, Valid;
      events := [];
      ghost var d := Abs();
      var i := 0;
      while i < |cs|
        invariant i <= |cs| && Valid()
        invariant (Abs(), events) == ServeAll(base, engine.env, engine.configPath, d, cs[..i])
      {
        assert cs[..i + 1][..i] == cs[..i];
        ghost var e := Handle(cs[i]);
        events := events + [e];
        i := i + 1;
      }
      assert cs[..i] == cs;
      AllOrNothing(base, engine.env, engine.configPath, d, cs);
    }
  }
}
