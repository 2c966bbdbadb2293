/** The inject-then-forward shape of unreliablefs_ops.c for ten operations, over an arbitrary base file
    system with a descriptor table. */
module Dispatch {
  import opened IniGrammar
  import opened FaultConfig
  import opened FaultResolution
  import opened FaultEngine

  type Bytes = seq<bv8>
  type Handle = nat

  /** What a system call reports: a value, or the errno. */
  datatype Sys<T> = Ok(value: T) | Err(errno: Errno)

  const EBADF: Errno := 9

  /** An arbitrary base file system: F is its state, N an open file, and disk what its control file is. */
  datatype Base<!F, !N> = Base(
    mkdir: (F, string, int) -> (F, Sys<int>),
    unlink: (F, string) -> (F, Sys<int>),
    rename: (F, string, string) -> (F, Sys<int>),
    truncate: (F, string, int) -> (F, Sys<int>),
    open: (F, string, int) -> (F, Sys<N>),
    creat: (F, string, int, int) -> (F, Sys<N>),
    pread: (F, N, nat, int) -> (F, Sys<Bytes>),
    pwrite: (F, N, Bytes, int) -> (F, Sys<nat>),
    disk: F -> Disk)

  const O_RDONLY := 0
  const O_WRONLY := 1

  /** The base file system, the descriptor table, and fi->fh of every open handle. */
  datatype State<F, N> = State(fs: F, fds: map<nat, N>, fh: map<Handle, nat>)

  /** A FUSE request. A missing handle is a NULL struct fuse_file_info pointer. */
  datatype FuseCall =
    | MkdirCall(path: string, mode: int)
    | UnlinkCall(path: string)
    | RenameCall(path: string, newpath: string)
    | TruncateCall(path: string, length: int)
    | OpenCall(path: string, fi: Handle, flags: int)
    | CreateCall(path: string, fi: Handle, flags: int, mode: int)
    | ReadCall(path: string, size: nat, offset: int, opt: Option<Handle>)
    | WriteCall(path: string, data: Bytes, offset: int, opt: Option<Handle>)
    | FlushCall(path: string, fi: Handle)
    | ReleaseCall(path: string, fi: Handle)
  {
    function Op(): Op {
      match this
      case MkdirCall(_, _) => Mkdir
      case UnlinkCall(_) => Unlink
      case RenameCall(_, _) => Rename
      case TruncateCall(_, _) => Truncate
      case OpenCall(_, _, _) => Open
      case CreateCall(_, _, _, _) => Create
      case ReadCall(_, _, _, _) => Read
      case WriteCall(_, _, _, _) => Write
      case FlushCall(_, _) => Flush
      case ReleaseCall(_, _) => Release
    }
  }

  /** The return value, and the bytes put into the caller's buffer. */
  datatype Reply = Reply(ret: int, data: Bytes)

  // ----- the descriptor table -----

  /** The lowest descriptor at or above n that is free. */
  function LowestFree<N>(fds: map<nat, N>, n: nat): (fd: nat)
    ensures fd >= n && fd !in fds
    ensures forall i :: n <= i < fd ==> i in fds
    decreases UsedFrom(fds, n)
  {
    if n !in fds then n
    else
      assert UsedFrom(fds, n) == UsedFrom(fds, n + 1) + {n};
      LowestFree(fds, n + 1)
  }

  ghost function UsedFrom<N>(fds: map<nat, N>, n: nat): set<nat> {
    set i | i in fds && n <= i
  }

  function FhOf<F, N>(st: State<F, N>, h: Handle): nat {
    if h in st.fh then st.fh[h] else 0
  }

  // ----- the operation itself, as the base file system does it -----

  function Plain<F, N>(st: State<F, N>, r: (F, Sys<int>)): (State<F, N>, Reply) {
    (st.(fs := r.0), Reply(if r.1.Err? then 0 - r.1.errno else 0, []))
  }

  /** open or creat into fi->fh. */
  function Opened<F, N>(st: State<F, N>, r: (F, Sys<N>), fi: Handle): (State<F, N>, Reply) {
    if r.1.Err? then (st.(fs := r.0), Reply(0 - r.1.errno, []))
    else
      var fd := LowestFree(st.fds, 0);
      (State(r.0, st.fds[fd := r.1.value], st.fh[fi := fd]), Reply(0, []))
  }

  function Pread<F, N>(base: Base<F, N>, fs: F, node: N, size: nat, offset: int): (F, Reply) {
    var r := base.pread(fs, node, size, offset);
    (r.0, if r.1.Err? then Reply(0 - r.1.errno, []) else Reply(|r.1.value|, r.1.value))
  }

  function Pwrite<F, N>(base: Base<F, N>, fs: F, node: N, data: Bytes, offset: int): (F, Reply) {
    var r := base.pwrite(fs, node, data, offset);
    (r.0, Reply(if r.1.Err? then 0 - r.1.errno else r.1.value as int, []))
  }

  /** What the base file system does with a request when nothing is injected: reads and writes without a
      handle act on a file opened for just that call, and flush changes nothing. */
  function Forward<F, N>(base: Base<F, N>, st: State<F, N>, c: FuseCall): (State<F, N>, Reply) {
    match c
    case MkdirCall(path, mode) => Plain(st, base.mkdir(st.fs, path, mode))
    case UnlinkCall(path) => Plain(st, base.unlink(st.fs, path))
    case RenameCall(path, newpath) => Plain(st, base.rename(st.fs, path, newpath))
    case TruncateCall(path, length) => Plain(st, base.truncate(st.fs, path, length))
    case OpenCall(path, fi, flags) => Opened(st, base.open(st.fs, path, flags), fi)
    case CreateCall(path, fi, flags, mode) => Opened(st, base.creat(st.fs, path, flags, mode), fi)
    case ReadCall(path, size, offset, None) =>
      var o := base.open(st.fs, path, O_RDONLY);
      if o.1.Err? then (st.(fs := o.0), Reply(0 - o.1.errno, []))
      else
        var (fs, reply) := Pread(base, o.0, o.1.value, size, offset);
        (st.(fs := fs), reply)
    case ReadCall(path, size, offset, Some(h)) =>
      if FhOf(st, h) !in st.fds then (st, Reply(0 - EBADF, []))
      else
        var (fs, reply) := Pread(base, st.fs, st.fds[FhOf(st, h)], size, offset);
        (st.(fs := fs), reply)
    case WriteCall(path, data, offset, None) =>
      var o := base.open(st.fs, path, O_WRONLY);
      if o.1.Err? then (st.(fs := o.0), Reply(0 - o.1.errno, []))
      else
        var (fs, reply) := Pwrite(base, o.0, o.1.value, data, offset);
        (st.(fs := fs), reply)
    case WriteCall(path, data, offset, Some(h)) =>
      if FhOf(st, h) !in st.fds then (st, Reply(0 - EBADF, []))
      else
        var (fs, reply) := Pwrite(base, st.fs, st.fds[FhOf(st, h)], data, offset);
        (st.(fs := fs), reply)
    case FlushCall(path, fi) =>
      (st, Reply(if FhOf(st, fi) in st.fds then 0 else 0 - EBADF, []))
    case ReleaseCall(path, fi) =>
      if FhOf(st, fi) !in st.fds then (st, Reply(0 - EBADF, []))
      else (st.(fds := st.fds - {FhOf(st, fi)}), Reply(0, []))
  }

  /** Every operation: a noop answers 0, any other injected code is the answer, and 0 forwards. */
  function Unreliable<F, N>(base: Base<F, N>, st: State<F, N>, rc: int, c: FuseCall): (State<F, N>, Reply) {
    if rc == NOOP_CODE then (st, Reply(0, []))
    else if rc != 0 then (st, Reply(rc, []))
    else Forward(base, st, c)
  }

  // ----- whole runs -----

  /** File system and fault engine together. */
  datatype Daemon<F, N> = Daemon(st: State<F, N>, engine: EngineState)

  datatype Event = Event(call: FuseCall, rc: int, reply: Reply)

  function Serve<F, N>(base: Base<F, N>, env: Env, configPath: string, d: Daemon<F, N>, c: FuseCall): (Daemon<F, N>, Event) {
    var (engine, a) := Inject(env, configPath, d.engine, Request(c.path, c.Op(), base.disk(d.st.fs)));
    var (st, reply) := Unreliable(base, d.st, a.rc, c);
    (Daemon(st, engine), Event(c, a.rc, reply))
  }

  function ServeAll<F, N>(base: Base<F, N>, env: Env, configPath: string, d: Daemon<F, N>, cs: seq<FuseCall>): (Daemon<F, N>, seq<Event>)
  {
    if cs == [] then (d, [])
    else
      var n := |cs| - 1;
      var (mid, events) := ServeAll(base, env, configPath, d, cs[..n]);
      var (end, e) := Serve(base, env, configPath, mid, cs[n]);
      (end, events + [e])
  }

  /** The base file system alone, on a list of requests. */
  function BaseRun<F, N>(base: Base<F, N>, st: State<F, N>, cs: seq<FuseCall>): (State<F, N>, seq<Reply>)
  {
    if cs == [] then (st, [])
    else
      var n := |cs| - 1;
      var (mid, replies) := BaseRun(base, st, cs[..n]);
      var (end, r) := Forward(base, mid, cs[n]);
      (end, replies + [r])
  }

  /** The events into which nothing was injected. */
  function Untouched(es: seq<Event>): seq<Event> {
    if es == [] then []
    else Untouched(es[..|es| - 1]) + if es[|es| - 1].rc == 0 then [es[|es| - 1]] else []
  }

  function CallsOf(es: seq<Event>): (cs: seq<FuseCall>)
    ensures |cs| == |es| && forall i :: 0 <= i < |es| ==> cs[i] == es[i].call
  {
    seq(|es|, i requires 0 <= i < |es| => es[i].call)
  }

  function RepliesOf(es: seq<Event>): (rs: seq<Reply>)
    ensures |rs| == |es| && forall i :: 0 <= i < |es| ==> rs[i] == es[i].reply
  {
    seq(|es|, i requires 0 <= i < |es| => es[i].reply)
  }

  lemma {:induction false} UntouchedAppend(es: seq<Event>, e: Event)
    ensures Untouched(es + [e]) == Untouched(es) + if e.rc == 0 then [e] else []
  {
  }

  lemma {:induction false} BaseRunAppend<F, N>(base: Base<F, N>, st: State<F, N>, cs: seq<FuseCall>, c: FuseCall)
    ensures var mid := BaseRun(base, st, cs);
      var last := Forward(base, mid.0, c);
      BaseRun(base, st, cs + [c]) == (last.0, mid.1 + [last.1])
  {
  }

  /** What holds of the daemon d' and the events es after a run that started in d. */
  ghost predicate Explained<F, N>(base: Base<F, N>, d: Daemon<F, N>, d': Daemon<F, N>, es: seq<Event>) {
    && BaseRun(base, d.st, CallsOf(Untouched(es))) == (d'.st, RepliesOf(Untouched(es)))
    && forall e :: e in es && e.rc != 0 ==> e.reply == Reply(if e.rc == NOOP_CODE then 0 else e.rc, [])
  }

  lemma {:induction false} ExplainedStep<F, N>(base: Base<F, N>, env: Env, configPath: string, d: Daemon<F, N>, mid: Daemon<F, N>,
                            es: seq<Event>, c: FuseCall)
    requires Explained(base, d, mid, es)
    ensures var s := Serve(base, env, configPath, mid, c); Explained(base, d, s.0, es + [s.1])
  {
    hide Forward, Inject, BaseRun, Untouched;
    var e := Serve(base, env, configPath, mid, c).1;
    var kept := Untouched(es);
    UntouchedAppend(es, e);
    if e.rc == 0 {
      assert CallsOf(kept + [e]) == CallsOf(kept) + [c];
      assert RepliesOf(kept + [e]) == RepliesOf(kept) + [e.reply];
      BaseRunAppend(base, d.st, CallsOf(kept), c);
    } else {
      assert kept + [] == kept;
    }
  }

  /** Faults happen before an operation or not at all: after any run the file system, the descriptor table
      and the handles are those of the base file system run on just the requests into which nothing was
      injected, with the same replies; every other request was answered with 0 or the injected code. */
  lemma {:induction false} AllOrNothing<F, N>(base: Base<F, N>, env: Env, configPath: string, d: Daemon<F, N>, cs: seq<FuseCall>)
    ensures var run := ServeAll(base, env, configPath, d, cs);
      Explained(base, d, run.0, run.1) && CallsOf(run.1) == cs
  {
    hide Serve, Explained;
    if |cs| == 0 {
      NothingServed(base, d);
    } else {
      var n := |cs| - 1;
      AllOrNothing(base, env, configPath, d, cs[..n]);
      var run := ServeAll(base, env, configPath, d, cs[..n]);
      ExplainedStep(base, env, configPath, d, run.0, run.1, cs[n]);
      ServedCall(base, env, configPath, run.0, cs[n]);
    }
  }

  lemma {:induction false} NothingServed<F, N>(base: Base<F, N>, d: Daemon<F, N>)
    ensures Explained(base, d, d, [])
  {
  }

  lemma {:induction false} ServedCall<F, N>(base: Base<F, N>, env: Env, configPath: string, d: Daemon<F, N>, c: FuseCall)
    ensures Serve(base, env, configPath, d, c).1.call == c
    ensures Serve(base, env, configPath, d, c).0.engine.rules
         == if c.path == configPath then RulesOf(base.disk(d.st.fs)) else d.engine.rules
  {
  }

  // ----- what is asked of error_inject, spelled out -----

  /** The path and the operation name that a request hands to error_inject. */
  ghost predicate Asks(c: FuseCall, path: string, name: string) {
    match c
    case MkdirCall(p, _) => path == p && name == "mkdir"
    case UnlinkCall(p) => path == p && name == "unlink"
    case RenameCall(p, _) => path == p && name == "rename"
    case TruncateCall(p, _) => path == p && name == "truncate"
    case OpenCall(p, _, _) => path == p && name == "open"
    case CreateCall(p, _, _, _) => path == p && name == "creat"
    case ReadCall(p, _, _, _) => path == p && name == "read"
    case WriteCall(p, _, _, _) => path == p && name == "write"
    case FlushCall(p, _) => path == p && name == "flush"
    case ReleaseCall(p, _) => path == p && name == "release"
  }

  /** When exactly a request is injected into, and with which code. */
  lemma {:induction false} InjectedExactly<F, N>(base: Base<F, N>, env: Env, configPath: string, d: Daemon<F, N>, c: FuseCall,
                                                 path: string, name: string)
    requires Asks(c, path, name)
    ensures var (end, e) := Serve(base, env, configPath, d, c);
      var q, disk := d.engine.rules, base.disk(d.st.fs);
      && (path == configPath ==>
           e.rc == 0 && end.engine.rules == if disk.Content? then Meaning(Calls(Outcomes(disk.text))) else [])
      && (path != configPath ==>
           && end.engine.rules == q
           && (e.rc != 0 <==> exists i :: 0 <= i < |q| && InjectsAt(env, q, path, c.Op(), name, d.engine.drawn, i))
           && forall i :: 0 <= i < |q| && InjectsLast(env, q, path, c.Op(), name, d.engine.drawn, i) ==>
                e.rc == if KIND_NAMES[q[i].kind] == "errinj_noop" then 999
                        else 0 - env.errnoOf(c.Op(), env.random(DrawOf(env, q, path, c.Op(), d.engine.drawn, i) + 1)))
  {
    hide Inject, Unreliable, Meaning, Calls, Outcomes, InjectsAt, InjectsLast, DrawOf;
    assert c.path == path && Named(c.Op(), name);
    InjectExactly(env, configPath, d.engine, Request(path, c.Op(), base.disk(d.st.fs)), name);
  }

  /** Request i is the last one of the run for the control file. */
  ghost predicate LastTouch(configPath: string, cs: seq<FuseCall>, i: nat)
    requires i < |cs|
  {
    cs[i].path == configPath && forall j :: i < j < |cs| ==> cs[j].path != configPath
  }

  /** The rules in force after a run are those of the control file as it was just before the last request
      for its path; without such a request they are the ones the run started with. */
  lemma {:induction false} LastTouchConfigures<F, N>(base: Base<F, N>, env: Env, configPath: string, d: Daemon<F, N>, cs: seq<FuseCall>)
    ensures (forall i :: 0 <= i < |cs| ==> cs[i].path != configPath) ==>
      ServeAll(base, env, configPath, d, cs).0.engine.rules == d.engine.rules
    ensures forall i :: 0 <= i < |cs| && LastTouch(configPath, cs, i) ==>
      ServeAll(base, env, configPath, d, cs).0.engine.rules
        == RulesOf(base.disk(ServeAll(base, env, configPath, d, cs[..i]).0.st.fs))
  {
    hide Serve, RulesOf;
    if |cs| == 0 {
    } else {
      var n := |cs| - 1;
      var init := cs[..n];
      LastTouchConfigures(base, env, configPath, d, init);
      ServedCall(base, env, configPath, ServeAll(base, env, configPath, d, init).0, cs[n]);
      forall i | 0 <= i < n && LastTouch(configPath, cs, i)
        ensures LastTouch(configPath, init, i) && init[..i] == cs[..i] && cs[n].path != configPath
      {
      }
    }
  }
}
