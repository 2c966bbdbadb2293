/** A concrete base file system of named files, and what runs of untouched requests do to it. */
module MapFs {
  import opened FaultConfig
  import opened FaultResolution
  import opened FaultEngine
  import opened Dispatch

  /** Names, and the files they stand for; a file lives on while it is open, whatever its name. */
  datatype Files = Files(names: map<string, nat>, data: map<nat, Bytes>)

  const ENOENT: Errno := 2
  const EINVAL: Errno := 22
  const EROFS: Errno := 30

  /** The bytes with data put at offset, and zeros before it if there were none. */
  function Put(old': Bytes, data: Bytes, offset: nat): (r: Bytes)
    ensures |data| > 0 ==> offset + |data| <= |r| && r[offset..offset + |data|] == data
  {
    var n := if |data| == 0 || offset + |data| <= |old'| then |old'| else offset + |data|;
    var r := seq(n, i requires 0 <= i < n =>
      if offset <= i < offset + |data| then data[i - offset] else if i < |old'| then old'[i] else 0);
    assert |data| > 0 ==> r[offset..offset + |data|] == data;
    r
  }

  /** Cut or filled up with zeros. */
  function Sized(b: Bytes, n: nat): Bytes {
    seq(n, i requires 0 <= i < n => if i < |b| then b[i] else 0)
  }

  function Slice(b: Bytes, offset: nat, size: nat): Bytes {
    var from := if offset < |b| then offset else |b|;
    var to := if offset + size < |b| then offset + size else |b|;
    b[from..to]
  }

  function Remove(f: Files, path: string): Files {
    f.(names := f.names - {path})
  }

  function Move(f: Files, path: string, newpath: string): Files
    requires path in f.names
  {
    f.(names := (f.names - {path})[newpath := f.names[path]])
  }

  /** There are no directories to make; config says what the control file is. */
  function MapBase(config: Files -> Disk): Base<Files, nat> {
    Base(
      (f: Files, path: string, mode: int) => (f, Sys<int>.Err(EROFS)),
      (f: Files, path: string) => if path in f.names then (Remove(f, path), Ok(0)) else (f, Sys<int>.Err(ENOENT)),
      (f: Files, path: string, newpath: string) => if path in f.names then (Move(f, path, newpath), Ok(0)) else (f, Sys<int>.Err(ENOENT)),
      (f: Files, path: string, length: int) =>
        if path !in f.names || f.names[path] !in f.data then (f, Sys<int>.Err(ENOENT))
        else if length < 0 then (f, Sys<int>.Err(EINVAL))
        else (f.(data := f.data[f.names[path] := Sized(f.data[f.names[path]], length)]), Ok(0)),
      (f: Files, path: string, flags: int) => if path in f.names then (f, Ok(f.names[path])) else (f, Sys<nat>.Err(ENOENT)),
      (f: Files, path: string, flags: int, mode: int) =>
        var n := if path in f.names then f.names[path] else LowestFree(f.data, 0);
        (Files(f.names[path := n], f.data[n := []]), Ok(n)),
      (f: Files, node: nat, size: nat, offset: int) =>
        if node !in f.data then (f, Sys<Bytes>.Err(EBADF))
        else if offset < 0 then (f, Sys<Bytes>.Err(EINVAL))
        else (f, Ok(Slice(f.data[node], offset, size))),
      (f: Files, node: nat, data: Bytes, offset: int) =>
        if node !in f.data then (f, Sys<nat>.Err(EBADF))
        else if offset < 0 then (f, Sys<nat>.Err(EINVAL))
        else (f.(data := f.data[node := Put(f.data[node], data, offset)]), Ok(|data|)),
      config)
  }

  /** The name path stands for a file with these bytes. */
  predicate Holds(f: Files, path: string, b: Bytes) {
    path in f.names && f.names[path] in f.data && f.data[f.names[path]] == b
  }

  /** After an untouched rename the new name holds what the old one held, the old one is gone, and every other
      name is as before; renaming a name that is not there answers -ENOENT and changes nothing. */
  lemma {:induction false} RenameMoves(config: Files -> Disk, env: Env, configPath: string, d: Daemon<Files, nat>,
                                       path: string, newpath: string, b: Bytes)
    requires path != newpath
    ensures var (end, e) := Serve(MapBase(config), env, configPath, d, RenameCall(path, newpath));
      e.rc == 0 ==>
        && (Holds(d.st.fs, path, b) ==> e.reply.ret == 0 && Holds(end.st.fs, newpath, b) && path !in end.st.fs.names)
        && (path !in d.st.fs.names ==> e.reply.ret == -2 && end.st == d.st)
        && forall name :: name != path && name != newpath ==>
             (name in end.st.fs.names <==> name in d.st.fs.names)
             && (name in d.st.fs.names ==> end.st.fs.names[name] == d.st.fs.names[name])
  {
    hide Inject;
  }

  /** What is written through a handle is read back through it, and under the new name when the file has been
      renamed in between, as long as nothing is injected. */
  lemma {:induction false} WriteRenameRead(config: Files -> Disk, env: Env, configPath: string, d: Daemon<Files, nat>,
                                           path: string, newpath: string, h: Handle, data: Bytes, offset: nat)
    requires path in d.st.fs.names && d.st.fs.names[path] in d.st.fs.data && path != newpath && |data| > 0
    ensures var base := MapBase(config);
      var (d1, open) := Serve(base, env, configPath, d, OpenCall(path, h, 2));
      var (d2, write) := Serve(base, env, configPath, d1, WriteCall(path, data, offset, Some(h)));
      var (d3, rename) := Serve(base, env, configPath, d2, RenameCall(path, newpath));
      var (d4, byHandle) := Serve(base, env, configPath, d3, ReadCall(path, |data|, offset, Some(h)));
      var (d5, byName) := Serve(base, env, configPath, d4, ReadCall(newpath, |data|, offset, None));
      open.rc == write.rc == rename.rc == byHandle.rc == byName.rc == 0 ==>
        && open.reply.ret == rename.reply.ret == 0 && write.reply.ret == |data|
        && byHandle.reply == byName.reply == Reply(|data|, data)
  {
    hide Inject, LowestFree, Put, Sized;
    var base := MapBase(config);
    var (d1, open) := Serve(base, env, configPath, d, OpenCall(path, h, 2));
    var (d2, write) := Serve(base, env, configPath, d1, WriteCall(path, data, offset, Some(h)));
    var (d3, rename) := Serve(base, env, configPath, d2, RenameCall(path, newpath));
    var (d4, byHandle) := Serve(base, env, configPath, d3, ReadCall(path, |data|, offset, Some(h)));
    if open.rc == write.rc == rename.rc == byHandle.rc == 0 {
      var node := d.st.fs.names[path];
      assert d1.st.fs == d.st.fs && d1.st.fds[FhOf(d1.st, h)] == node;
      assert d2.st.fs.data[node] == Put(d.st.fs.data[node], data, offset);
      assert d3.st.fs.data == d2.st.fs.data && d3.st.fs.names[newpath] == node;
      assert d4.st.fs == d3.st.fs;
    }
  }
}
