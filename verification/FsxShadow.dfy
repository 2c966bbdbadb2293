/** What the shadow image means: its size and every byte below it follow from the operation log alone. */
module FsxShadow {
  import opened FsxModel

  datatype Writer = Never | Operation(number: nat)

  /** Entries that stand for an operation; the others mark a close/open or an invalidation. */
  predicate IsPrimary(e: LogEntry) {
    e.operation != OP_CLOSEOPEN && e.operation != OP_INVALIDATE
  }

  predicate IsWrite(e: LogEntry) {
    e.operation == OP_WRITE || e.operation == OP_MAPWRITE
  }

  /** How many operations a log holds, which is the number logdump prints for the last of them. */
  function Primaries(log: seq<LogEntry>): nat {
    if log == [] then 0
    else Primaries(log[..|log| - 1]) + if IsPrimary(log[|log| - 1]) then 1 else 0
  }

  /** The file size after the operations of a log: writes extend, truncations set. */
  function RefSize(init: nat, log: seq<LogEntry>): int {
    if log == [] then init
    else
      var e, before := log[|log| - 1], RefSize(init, log[..|log| - 1]);
      if IsWrite(e) then if before < e.arg0 + e.arg1 then e.arg0 + e.arg1 else before
      else if e.operation == OP_TRUNCATE then e.arg0
      else before
  }

  /** The operation that offset i was last written by, unless it was cut off since. */
  function LastWriter(log: seq<LogEntry>, i: nat): Writer {
    if log == [] then Never
    else
      var e := log[|log| - 1];
      if IsWrite(e) && e.arg0 <= i < e.arg0 + e.arg1 then Operation(Primaries(log))
      else if e.operation == OP_TRUNCATE && e.arg0 <= i then Never
      else LastWriter(log[..|log| - 1], i)
  }

  /** The byte that offset i must hold: last write wins, and what no operation wrote since it was last cut
      off is zero. Even offsets hold the operation number, odd ones the original byte on top of it. */
  function RefByte(orig: seq<byte>, log: seq<LogEntry>, i: nat): byte
    requires i < |orig|
  {
    match LastWriter(log, i)
    case Never => 0
    case Operation(n) => GenByte(orig, n, i)
  }

  ghost predicate Explains(cfg: Config, orig: seq<byte>, sh: Shadow) {
    && ShadowOk(cfg, sh) && |orig| == cfg.maxFileLen
    && Primaries(sh.log) == sh.calls
    && RefSize(if cfg.lite then cfg.maxFileLen else 0, sh.log) == sh.size
    && forall i :: 0 <= i < sh.size ==> sh.good[i] == RefByte(orig, sh.log, i)
  }

  // ----- the log grows -----

  /** The last writer of offset i after one more entry. */
  function WriterAfter(log: seq<LogEntry>, e: LogEntry, i: nat): Writer {
    if IsWrite(e) && e.arg0 <= i < e.arg0 + e.arg1 then Operation(Primaries(log) + 1)
    else if e.operation == OP_TRUNCATE && e.arg0 <= i then Never
    else LastWriter(log, i)
  }

  lemma {:induction false} OneMore(init: nat, log: seq<LogEntry>, e: LogEntry)
    ensures Primaries(log + [e]) == Primaries(log) + if IsPrimary(e) then 1 else 0
    ensures RefSize(init, log + [e]) ==
      if IsWrite(e) then (if RefSize(init, log) < e.arg0 + e.arg1 then e.arg0 + e.arg1 else RefSize(init, log))
      else if e.operation == OP_TRUNCATE then e.arg0
      else RefSize(init, log)
    ensures forall i: nat :: LastWriter(log + [e], i) == WriterAfter(log, e, i)
  {
  }

  lemma {:induction false} PrimariesSplit(a: seq<LogEntry>, b: seq<LogEntry>)
    ensures Primaries(a + b) == Primaries(a) + Primaries(b)
  {
    if |b| > 0 {
      PrimariesSplit(a, b[..|b| - 1]);
      assert (a + b)[..|a + b| - 1] == a + b[..|b| - 1];
    } else {
      assert a + b == a;
    }
  }

  lemma {:induction false} FewPrimaries(log: seq<LogEntry>)
    ensures Primaries(log) <= |log|
  {
    if |log| == 0 {
    } else {
      FewPrimaries(log[..|log| - 1]);
    }
  }

  /** The marks after an operation change nothing. */
  lemma {:induction false} MarksMeanNothing(init: nat, sh: Shadow, e: LogEntry)
    requires IsPrimary(e)
    ensures Primaries(Logged(sh, e)) == Primaries(sh.log) + 1
    ensures RefSize(init, Logged(sh, e)) == RefSize(init, sh.log + [e])
    ensures forall i: nat :: LastWriter(Logged(sh, e), i) == LastWriter(sh.log + [e], i)
  {
    hide RefSize, LastWriter, Primaries;
    var c, v := LogEntry(OP_CLOSEOPEN, 0, 0, 0), LogEntry(OP_INVALIDATE, 0, 0, 0);
    var one := sh.log + [e];
    OneMore(init, sh.log, e);
    var two := if sh.closeOpen then one + [c] else one;
    if sh.closeOpen {
      OneMore(init, one, c);
    }
    if sh.invl {
      OneMore(init, two, v);
    }
    assert Logged(sh, e) == if sh.invl then two + [v] else two;
  }

  /** Beyond the end of the file no offset has a writer. */
  lemma {:induction false} NoWriterBeyondEnd(init: nat, log: seq<LogEntry>, i: nat)
    requires RefSize(init, log) <= i
    ensures LastWriter(log, i) == Never
  {
    if |log| == 0 {
    } else {
      var e := log[|log| - 1];
      if !(e.operation == OP_TRUNCATE && e.arg0 <= i) {
        NoWriterBeyondEnd(init, log[..|log| - 1], i);
      }
    }
  }

  // ----- every operation keeps the meaning -----

  /** The state between counting an operation and logging it. */
  ghost predicate Counted(cfg: Config, orig: seq<byte>, sh: Shadow) {
    sh.calls > 0 && Explains(cfg, orig, sh.(calls := sh.calls - 1))
  }

  /** An operation that leaves the image alone. */
  lemma {:induction false} KeepsImage(cfg: Config, orig: seq<byte>, sh: Shadow, e: LogEntry)
    requires Counted(cfg, orig, sh) && IsPrimary(e) && !IsWrite(e) && e.operation != OP_TRUNCATE
    ensures Explains(cfg, orig, sh.(log := Logged(sh, e)))
  {
    hide RefSize, LastWriter, Primaries, Logged;
    var init := if cfg.lite then cfg.maxFileLen else 0;
    OneMore(init, sh.log, e);
    MarksMeanNothing(init, sh, e);
  }

  lemma {:induction false} WriteExplained(cfg: Config, orig: seq<byte>, sh: Shadow, e: LogEntry)
    requires Counted(cfg, orig, sh) && IsWrite(e)
    requires 0 <= e.arg0 && 0 < e.arg1 && e.arg0 + e.arg1 <= cfg.maxFileLen
    ensures Explains(cfg, orig, Written(orig, sh.(log := Logged(sh, e)), e.arg0, e.arg1))
  {
    hide RefSize, LastWriter, Primaries, Logged, GenByte;
    var init := if cfg.lite then cfg.maxFileLen else 0;
    OneMore(init, sh.log, e);
    MarksMeanNothing(init, sh, e);
    var log := Logged(sh, e);
    var r := Written(orig, sh.(log := log), e.arg0, e.arg1);
    forall i | 0 <= i < r.size
      ensures r.good[i] == RefByte(orig, log, i)
    {
      if e.arg0 <= i < e.arg0 + e.arg1 {
        assert r.good[i] == GenByte(orig, sh.calls, i);
      } else if sh.size <= i {
        NoWriterBeyondEnd(init, sh.log, i);
      }
    }
  }

  lemma {:induction false} TruncateExplained(cfg: Config, orig: seq<byte>, sh: Shadow, n: nat)
    requires Counted(cfg, orig, sh) && n <= cfg.maxFileLen
    ensures var e := LogEntry(OP_TRUNCATE, n, sh.size, 0);
      Explains(cfg, orig, sh.(log := Logged(sh, e), good := ZeroFill(sh.good, sh.size, n), size := n))
  {
    hide RefSize, LastWriter, Primaries, Logged, GenByte;
    var init := if cfg.lite then cfg.maxFileLen else 0;
    var e := LogEntry(OP_TRUNCATE, n, sh.size, 0);
    OneMore(init, sh.log, e);
    MarksMeanNothing(init, sh, e);
    forall i | 0 <= i < n
      ensures ZeroFill(sh.good, sh.size, n)[i] == RefByte(orig, Logged(sh, e), i)
    {
      if sh.size <= i {
        NoWriterBeyondEnd(init, sh.log, i);
      }
    }
  }

  lemma {:induction false} AdvanceExplained(cfg: Config, orig: seq<byte>, rnd: Stream, sh: Shadow)
    requires cfg.Ok() && Explains(cfg, orig, sh)
    ensures Explains(cfg, orig, Advance(cfg, orig, rnd, sh).0)
  {
    hide RefByte, Logged, Written, ZeroFill;
    var d := Decode(cfg, rnd, sh.size, sh.pos);
    var c := Begun(cfg, rnd, sh).(pos := d.1);
    assert Counted(cfg, orig, c) by {
      BegunCounted(cfg, orig, rnd, sh, d.1);
    }
    match d.0
    case ReadCmd(offset, size) => ReadExplained(cfg, orig, c, offset, size, false);
    case MapReadCmd(offset, size) => ReadExplained(cfg, orig, c, offset, size, true);
    case WriteCmd(offset, size) => StoreExplained(cfg, orig, c, offset, size, false);
    case MapWriteCmd(offset, size) => StoreExplained(cfg, orig, c, offset, size, true);
    case TruncateCmd(size) => TruncateExplained(cfg, orig, c, Align(size, cfg.truncBdy));
  }

  lemma {:induction false} BegunCounted(cfg: Config, orig: seq<byte>, rnd: Stream, sh: Shadow, pos: nat)
    requires Explains(cfg, orig, sh)
    ensures Counted(cfg, orig, Begun(cfg, rnd, sh).(pos := pos))
  {
  }

  lemma {:induction false} ReadExplained(cfg: Config, orig: seq<byte>, sh: Shadow, offset: nat, size: nat, mapped: bool)
    requires cfg.Ok() && Counted(cfg, orig, sh) && size <= cfg.maxOpLen
    ensures Explains(cfg, orig, ExecuteRead(cfg, sh, offset, size, mapped).0)
  {
    hide Logged, Explains;
    var op := if mapped then OP_MAPREAD else OP_READ;
    var o := Align(offset, cfg.readBdy);
    KeepsImage(cfg, orig, sh, LogEntry(OP_SKIPPED, op, o, size));
    KeepsImage(cfg, orig, sh, LogEntry(op, o, size, 0));
  }

  lemma {:induction false} StoreExplained(cfg: Config, orig: seq<byte>, sh: Shadow, offset: nat, size: nat, mapped: bool)
    requires cfg.Ok() && Counted(cfg, orig, sh) && size <= cfg.maxOpLen && offset + size <= cfg.maxFileLen
    ensures Explains(cfg, orig, ExecuteWrite(cfg, orig, sh, offset, size, mapped).0)
  {
    hide Logged, Written;
    var op := if mapped then OP_MAPWRITE else OP_WRITE;
    var o := Align(offset, cfg.writeBdy);
    if size == 0 {
      KeepsImage(cfg, orig, sh, LogEntry(OP_SKIPPED, op, o, size));
    } else {
      WriteExplained(cfg, orig, sh, LogEntry(op, o, size, if mapped then 0 else sh.size));
    }
  }

  /** Byte provenance: in every reachable state, whatever the file system replies, the shadow image below
      file_size is what the log says: at even offsets the number of the operation that last wrote it, at odd
      offsets the original byte added, and zero where no operation has written since the last cut. */
  lemma {:induction false} ByteProvenance(cfg: Config, orig: seq<byte>, rnd: Stream, env: Env, k: nat)
    requires cfg.Ok() && |orig| == cfg.maxFileLen
    ensures Explains(cfg, orig, Run(cfg, orig, rnd, env, k).sh)
  {
    hide Explains, Advance, Applied, Prepared;
    if k == 0 {
      StartExplained(cfg, orig);
    } else {
      ByteProvenance(cfg, orig, rnd, env, k - 1);
      AdvanceExplained(cfg, orig, rnd, Run(cfg, orig, rnd, env, k - 1).sh);
    }
  }

  lemma {:induction false} StartExplained(cfg: Config, orig: seq<byte>)
    requires cfg.Ok() && |orig| == cfg.maxFileLen
    ensures Explains(cfg, orig, Start(cfg).sh)
  {
  }
}
