/** Which file a FUSE handle reaches. An injected noop answers open with 0 and leaves fi->fh at 0, so what
    is done through that handle is done to descriptor 0, whosever that is. */
module Handles {
  import opened FaultConfig
  import opened FaultResolution
  import opened FaultEngine
  import opened Dispatch

  // ----- a run, event by event -----

  /** The file system, descriptors and handles after the first n events. */
  function StateAfter<F, N>(base: Base<F, N>, st: State<F, N>, es: seq<Event>, n: nat): State<F, N>
    requires n <= |es|
  {
    if n == 0 then st else Unreliable(base, StateAfter(base, st, es, n - 1), es[n - 1].rc, es[n - 1].call).0
  }

  /** Every event carries the reply that was given. */
  ghost predicate Replied<F, N>(base: Base<F, N>, st: State<F, N>, es: seq<Event>) {
    forall i :: 0 <= i < |es| ==> es[i].reply == Unreliable(base, StateAfter(base, st, es, i), es[i].rc, es[i].call).1
  }

  predicate Opens(c: FuseCall) {
    c.OpenCall? || c.CreateCall?
  }

  /** The handle a request goes through. */
  function Through(c: FuseCall): Option<Handle> {
    match c
    case ReadCall(_, _, _, opt) => opt
    case WriteCall(_, _, _, opt) => opt
    case FlushCall(_, fi) => Some(fi)
    case ReleaseCall(_, fi) => Some(fi)
    case _ => None
  }

  /** Event j opened its handle, as far as its reply says, and the handle is not released before event n. */
  predicate Live(es: seq<Event>, j: nat, n: nat) {
    && j < n <= |es| && Opens(es[j].call) && es[j].reply.ret == 0
    && forall i :: j < i < n ==> !(es[i].call.ReleaseCall? && es[i].call.fi == es[j].call.fi)
  }

  /** How FUSE uses handles: each is opened once, and used only between its open and its release. */
  ghost predicate Disciplined(es: seq<Event>) {
    && (forall i, j :: 0 <= i < j < |es| && Opens(es[i].call) && Opens(es[j].call) ==> es[i].call.fi != es[j].call.fi)
    && (forall i :: 0 <= i < |es| && Through(es[i].call).Some? ==> Belongs(es, i))
  }

  ghost predicate Belongs(es: seq<Event>, i: nat)
    requires i < |es| && Through(es[i].call).Some?
  {
    exists j: nat :: Live(es, j, i) && es[j].call.fi == Through(es[i].call).value
  }

  /** The file that an open or creat delivers in state s. */
  function Delivered<F, N>(base: Base<F, N>, s: State<F, N>, c: FuseCall): Sys<N>
    requires Opens(c)
  {
    match c
    case OpenCall(path, _, flags) => base.open(s.fs, path, flags).1
    case CreateCall(path, _, flags, mode) => base.creat(s.fs, path, flags, mode).1
  }

  /** In state s the event opens a file. */
  predicate OpensFile<F, N>(base: Base<F, N>, s: State<F, N>, e: Event) {
    e.rc == 0 && Opens(e.call) && Delivered(base, s, e.call).Ok?
  }

  /** In state s the event closes descriptor fd. */
  predicate Closes<F, N>(s: State<F, N>, e: Event, fd: nat) {
    e.rc == 0 && e.call.ReleaseCall? && FhOf(s, e.call.fi) == fd
  }

  /** The event that opened what is now at descriptor fd, or -1. */
  function Opener<F, N>(base: Base<F, N>, st: State<F, N>, es: seq<Event>, n: nat, fd: nat): int
    requires n <= |es|
  {
    if n == 0 then -1
    else
      var s := StateAfter(base, st, es, n - 1);
      if OpensFile(base, s, es[n - 1]) && LowestFree(s.fds, 0) == fd then n - 1
      else if Closes(s, es[n - 1], fd) then -1
      else Opener(base, st, es, n - 1, fd)
  }

  /** Event j opened a file, and at this descriptor. */
  ghost predicate OpenedAt<F, N>(base: Base<F, N>, st: State<F, N>, es: seq<Event>, j: nat, fd: nat) {
    && j < |es| && OpensFile(base, StateAfter(base, st, es, j), es[j])
    && LowestFree(StateAfter(base, st, es, j).fds, 0) == fd
  }

  // ----- what one event does to descriptors and handles -----

  lemma {:induction false} OneEvent<F, N>(base: Base<F, N>, s: State<F, N>, e: Event)
    ensures var t := Unreliable(base, s, e.rc, e.call).0;
      if OpensFile(base, s, e) then
        var fd := LowestFree(s.fds, 0);
        t.fds == s.fds[fd := Delivered(base, s, e.call).value] && t.fh == s.fh[e.call.fi := fd]
      else if e.rc == 0 && e.call.ReleaseCall? then t.fds == s.fds - {FhOf(s, e.call.fi)} && t.fh == s.fh
      else t.fds == s.fds && t.fh == s.fh
    ensures var r := Unreliable(base, s, e.rc, e.call).1;
      Opens(e.call) && r.ret == 0 && e.rc == 0 ==> OpensFile(base, s, e)
  {
    hide LowestFree, Pread, Pwrite;
  }

  // ----- handles keep their descriptors -----

  /** One of the first n events opened a file into handle h. */
  ghost predicate HasOpened<F, N>(base: Base<F, N>, st: State<F, N>, es: seq<Event>, n: nat, h: Handle) {
    exists j: nat, fd: nat :: j < n && OpenedAt(base, st, es, j, fd) && es[j].call.fi == h
  }

  /** A handle whose open delivered a file has its descriptor; every other has none. */
  lemma {:induction false} HandlesKept<F, N>(base: Base<F, N>, st: State<F, N>, es: seq<Event>, n: nat)
    requires n <= |es| && Disciplined(es) && st.fh == map[]
    ensures var fh := StateAfter(base, st, es, n).fh;
      && (forall j: nat, fd: nat :: j < n && OpenedAt(base, st, es, j, fd) ==> es[j].call.fi in fh && fh[es[j].call.fi] == fd)
      && (forall h :: h in fh ==> HasOpened(base, st, es, n, h))
  {
    hide Unreliable, LowestFree, Belongs;
    if n == 0 {
    } else {
      HandlesKept(base, st, es, n - 1);
      var s, e := StateAfter(base, st, es, n - 1), es[n - 1];
      OneEvent(base, s, e);
      assert OpensFile(base, s, e) ==> OpenedAt(base, st, es, n - 1, LowestFree(s.fds, 0));
      forall h | h in StateAfter(base, st, es, n).fh
        ensures HasOpened(base, st, es, n, h)
      {
        assert h in s.fh ==> HasOpened(base, st, es, n - 1, h);
      }
    }
  }

  /** What has an opener is open, and is the file that opener delivered. */
  lemma {:induction false} OpenersKept<F, N>(base: Base<F, N>, st: State<F, N>, es: seq<Event>, n: nat, fd: nat)
    requires n <= |es|
    ensures var j, s := Opener(base, st, es, n, fd), StateAfter(base, st, es, n);
      j >= 0 ==>
        && j < n && OpenedAt(base, st, es, j, fd)
        && fd in s.fds && s.fds[fd] == Delivered(base, StateAfter(base, st, es, j), es[j].call).value
  {
    hide Unreliable, LowestFree, Delivered;
    if n == 0 {
    } else {
      OpenersKept(base, st, es, n - 1, fd);
      OneEvent(base, StateAfter(base, st, es, n - 1), es[n - 1]);
    }
  }

  // ----- the theorem -----

  /** Since event j another handle with fi->fh at 0 was released, which closed descriptor 0. */
  ghost predicate ZeroClosed<F, N>(base: Base<F, N>, st: State<F, N>, es: seq<Event>, j: nat, n: nat)
    requires n <= |es|
  {
    exists i :: j < i < n && Closes(StateAfter(base, st, es, i), es[i], 0)
  }

  /** A live handle whose open delivered a file reaches that file, unless its descriptor is 0 and another
      handle at 0 was released. */
  lemma {:induction false} OwnersKept<F, N>(base: Base<F, N>, st: State<F, N>, es: seq<Event>, n: nat, j: nat, fd: nat)
    requires n <= |es| && Disciplined(es) && Replied(base, st, es) && st.fh == map[]
    requires Live(es, j, n) && OpenedAt(base, st, es, j, fd)
    ensures Opener(base, st, es, n, fd) == j <==> !(fd == 0 && ZeroClosed(base, st, es, j, n))
    decreases n, 0
  {
    hide Unreliable, LowestFree, StateAfter, Disciplined, Replied;
    if j < n - 1 {
      LiveBefore(es, j, n);
      OwnersKept(base, st, es, n - 1, j, fd);
      OpenersKept(base, st, es, n - 1, fd);
      if Closes(StateAfter(base, st, es, n - 1), es[n - 1], fd) && fd != 0 {
        OtherDescriptor(base, st, es, n - 1, j, fd);
      }
    }
  }

  lemma {:induction false} LiveBefore(es: seq<Event>, j: nat, n: nat)
    requires Live(es, j, n) && j < n - 1
    ensures Live(es, j, n - 1) && !(es[n - 1].call.ReleaseCall? && es[n - 1].call.fi == es[j].call.fi)
  {
  }

  /** A descriptor other than 0 is only closed through the handle that has it. */
  lemma {:induction false} OtherDescriptor<F, N>(base: Base<F, N>, st: State<F, N>, es: seq<Event>, i: nat, j: nat, fd: nat)
    requires i < |es| && Disciplined(es) && Replied(base, st, es) && st.fh == map[] && fd != 0
    requires Live(es, j, i) && OpenedAt(base, st, es, j, fd) && Closes(StateAfter(base, st, es, i), es[i], fd)
    ensures es[i].call.fi == es[j].call.fi
    decreases i, 1
  {
    hide Unreliable, LowestFree, StateAfter;
    var h := es[i].call.fi;
    assert Belongs(es, i);
    var g: nat :| Live(es, g, i) && es[g].call.fi == h;
    HandlesKept(base, st, es, i);
    assert HasOpened(base, st, es, i, h);
    var k: nat, fd': nat :| k < i && OpenedAt(base, st, es, k, fd') && es[k].call.fi == h;
    assert k == g && fd' == fd;
    OwnersKept(base, st, es, i, g, fd);
    OwnersKept(base, st, es, i, j, fd);
  }

  /** The handle of event j reaches, after n events, what event j opened. */
  ghost predicate Reaches<F, N>(base: Base<F, N>, st: State<F, N>, es: seq<Event>, n: nat, j: nat)
    requires j < n <= |es| && Opens(es[j].call)
  {
    Opener(base, st, es, n, FhOf(StateAfter(base, st, es, n), es[j].call.fi)) == j
  }

  /** The descriptor of a live handle: the one its open got, or 0 when a noop was injected into its open. */
  lemma {:induction false} LiveDescriptor<F, N>(base: Base<F, N>, st: State<F, N>, es: seq<Event>, n: nat, j: nat)
    requires n <= |es| && Disciplined(es) && Replied(base, st, es) && st.fh == map[] && Live(es, j, n)
    ensures var fd := FhOf(StateAfter(base, st, es, n), es[j].call.fi);
      if es[j].rc == 0 then OpenedAt(base, st, es, j, fd) else fd == 0
  {
    hide Unreliable, LowestFree, StateAfter, Belongs;
    HandlesKept(base, st, es, n);
    var s := StateAfter(base, st, es, j);
    OneEvent(base, s, es[j]);
    var h := es[j].call.fi;
    if es[j].rc == 0 {
      assert OpenedAt(base, st, es, j, LowestFree(s.fds, 0));
    } else {
      assert h in StateAfter(base, st, es, n).fh ==> HasOpened(base, st, es, n, h);
    }
  }

  /** The exact condition: nothing was injected into the open, and if it was given descriptor 0, no other
      handle at 0 has been released since. */
  lemma {:induction false} HandleReaches<F, N>(base: Base<F, N>, st: State<F, N>, es: seq<Event>, n: nat, j: nat)
    requires n <= |es| && Disciplined(es) && Replied(base, st, es) && st.fh == map[] && Live(es, j, n)
    ensures Reaches(base, st, es, n, j) <==>
      es[j].rc == 0
      && (FhOf(StateAfter(base, st, es, n), es[j].call.fi) == 0 ==> !ZeroClosed(base, st, es, j, n))
  {
    hide Unreliable, LowestFree, StateAfter, Belongs, FhOf, Opener;
    var fd := FhOf(StateAfter(base, st, es, n), es[j].call.fi);
    LiveDescriptor(base, st, es, n, j);
    if es[j].rc == 0 {
      OwnersKept(base, st, es, n, j, fd);
    } else {
      OpenersKept(base, st, es, n, fd);
    }
  }

  /** When no open was answered by a noop, every live handle reaches its file. */
  lemma {:induction false} AllReach<F, N>(base: Base<F, N>, st: State<F, N>, es: seq<Event>, n: nat, j: nat)
    requires n <= |es| && Disciplined(es) && Replied(base, st, es) && st.fh == map[] && Live(es, j, n)
    requires forall i :: 0 <= i < n && Opens(es[i].call) ==> es[i].rc != NOOP_CODE
    ensures Reaches(base, st, es, n, j)
    decreases n
  {
    hide LowestFree, StateAfter, Opener, Unreliable, FhOf, OpensFile, Disciplined;
    HandleReaches(base, st, es, n, j);
    if es[j].rc != 0 {
      NoopOpens(base, st, es, j);
    }
    if !Reaches(base, st, es, n, j) {
      var i: nat :| j < i < n && Closes(StateAfter(base, st, es, i), es[i], 0);
      assert Belongs(es, i) by {
        DisciplinedAt(es, i);
      }
      var g: nat :| Live(es, g, i) && es[g].call.fi == es[i].call.fi;
      LiveDescriptor(base, st, es, i, j);
      LiveDescriptor(base, st, es, n, j);
      AllReach(base, st, es, i, g);
      AllReach(base, st, es, i, j);
    }
  }

  lemma {:induction false} DisciplinedAt(es: seq<Event>, i: nat)
    requires Disciplined(es) && i < |es| && Through(es[i].call).Some?
    ensures Belongs(es, i)
  {
  }

  /** An injected open that answers 0 is a noop. */
  lemma {:induction false} NoopOpens<F, N>(base: Base<F, N>, st: State<F, N>, es: seq<Event>, j: nat)
    requires Replied(base, st, es) && j < |es| && es[j].reply.ret == 0 && es[j].rc != 0
    ensures es[j].rc == NOOP_CODE
  {
    hide Forward, StateAfter;
  }

  // ----- whole runs -----

  lemma {:induction false} StatePrefix<F, N>(base: Base<F, N>, st: State<F, N>, es: seq<Event>, e: Event, n: nat)
    requires n <= |es|
    ensures StateAfter(base, st, es + [e], n) == StateAfter(base, st, es, n)
  {
    hide Unreliable;
    if n == 0 {
    } else {
      StatePrefix(base, st, es, e, n - 1);
    }
  }

  /** The events of a run, and the states between them. */
  lemma {:induction false} ServedEvents<F, N>(base: Base<F, N>, env: Env, configPath: string, d: Daemon<F, N>, cs: seq<FuseCall>)
    ensures var run := ServeAll(base, env, configPath, d, cs);
      |run.1| == |cs| && Replied(base, d.st, run.1) && StateAfter(base, d.st, run.1, |cs|) == run.0.st
  {
    hide Unreliable, Inject;
    if |cs| == 0 {
    } else {
      var n := |cs| - 1;
      ServedEvents(base, env, configPath, d, cs[..n]);
      var (mid, es) := ServeAll(base, env, configPath, d, cs[..n]);
      var e := Serve(base, env, configPath, mid, cs[n]).1;
      forall i | 0 <= i <= n
        ensures StateAfter(base, d.st, es + [e], i) == StateAfter(base, d.st, es, i)
      {
        StatePrefix(base, d.st, es, e, i);
      }
    }
  }

  /** What is read and written through handle h is done to the file node. */
  ghost predicate ActsOn<F, N>(base: Base<F, N>, s: State<F, N>, h: Handle, node: N) {
    && (forall path, size, offset :: Forward(base, s, ReadCall(path, size, offset, Some(h)))
          == var p := Pread(base, s.fs, node, size, offset); (s.(fs := p.0), p.1))
    && (forall path, data, offset :: Forward(base, s, WriteCall(path, data, offset, Some(h)))
          == var p := Pwrite(base, s.fs, node, data, offset); (s.(fs := p.0), p.1))
  }

  lemma {:induction false} DescriptorActsOn<F, N>(base: Base<F, N>, s: State<F, N>, h: Handle)
    requires FhOf(s, h) in s.fds
    ensures ActsOn(base, s, h, s.fds[FhOf(s, h)])
  {
    hide Pread, Pwrite, FhOf;
  }

  /** At any point of any run, with any rules and any draws: a live handle reaches the file that its open
      delivered exactly when nothing was injected into that open and, if it got descriptor 0, no other handle
      at 0 has been released since; then reads and writes through it act on that file. When no open was
      answered by a noop, every live handle does. */
  lemma {:induction false} HandlesInRuns<F, N>(base: Base<F, N>, env: Env, configPath: string, d: Daemon<F, N>, cs: seq<FuseCall>, j: nat)
    requires d.st.fh == map[] && j < |cs|
    requires var es := ServeAll(base, env, configPath, d, cs).1; Disciplined(es) && Live(es, j, |es|)
    ensures var (end, es) := ServeAll(base, env, configPath, d, cs);
      var h := es[j].call.fi;
      && (Reaches(base, d.st, es, |es|, j) <==>
           es[j].rc == 0 && (FhOf(end.st, h) == 0 ==> !ZeroClosed(base, d.st, es, j, |es|)))
      && (Reaches(base, d.st, es, |es|, j) ==>
           && OpensFile(base, StateAfter(base, d.st, es, j), es[j])
           && ActsOn(base, end.st, h, Delivered(base, StateAfter(base, d.st, es, j), es[j].call).value))
      && (es[j].rc != 0 ==> FhOf(end.st, h) == 0)
      && ((forall i :: 0 <= i < |es| && Opens(es[i].call) ==> es[i].rc != NOOP_CODE) ==> Reaches(base, d.st, es, |es|, j))
  {
    hide ServeAll, StateAfter, Opener, Disciplined, Replied, ZeroClosed, FhOf, ActsOn, LowestFree, Delivered;
    var (end, es) := ServeAll(base, env, configPath, d, cs);
    ServedEvents(base, env, configPath, d, cs);
    HandleReaches(base, d.st, es, |es|, j);
    LiveDescriptor(base, d.st, es, |es|, j);
    var fd := FhOf(end.st, es[j].call.fi);
    OpenersKept(base, d.st, es, |es|, fd);
    if fd in end.st.fds {
      DescriptorActsOn(base, end.st, es[j].call.fi);
    }
    if forall i :: 0 <= i < |es| && Opens(es[i].call) ==> es[i].rc != NOOP_CODE {
      AllReach(base, d.st, es, |es|, j);
    }
  }

  // ----- how it fails -----

  /** a is opened, a noop is injected into opening b, and b is released. */
  function NoopRun(a: string, b: string, flags: int): seq<Event> {
    [Event(OpenCall(a, 1, flags), 0, Reply(0, [])),
     Event(OpenCall(b, 2, flags), NOOP_CODE, Reply(0, [])),
     Event(ReleaseCall(b, 2), 0, Reply(0, []))]
  }

  /** With descriptor 0 free at first, the handle of b reaches the file of a; and once it is released the
      handle of a, though nothing was injected into its open, is left without a file. */
  lemma {:induction false} NoopReachesAnotherFile<F, N>(base: Base<F, N>, st: State<F, N>, a: string, b: string, flags: int)
    requires st.fds == map[] && st.fh == map[] && base.open(st.fs, a, flags).1.Ok?
    ensures var es := NoopRun(a, b, flags);
      var mid, end := StateAfter(base, st, es, 2), StateAfter(base, st, es, 3);
      && Replied(base, st, es) && Disciplined(es) && Live(es, 0, 3) && Live(es, 1, 2)
      && ActsOn(base, mid, 2, base.open(st.fs, a, flags).1.value)
      && es[0].rc == 0 && FhOf(end, 1) !in end.fds
  {
    var es := NoopRun(a, b, flags);
    var one, mid := StateAfter(base, st, es, 1), StateAfter(base, st, es, 2);
    assert StateAfter(base, st, es, 0) == st;
    assert one.fds == map[0 := base.open(st.fs, a, flags).1.value] && one.fh == map[1 := 0];
    assert mid == one;
    DescriptorActsOn(base, mid, 2);
    assert Live(es, 1, 2) && Belongs(es, 2);
  }
}
