/** The five operations of fsx.c spelled out: what each logs, makes of the shadow image, does to the tested
    file, and checks; and which operation a draw stands for. */
module FsxMeaning {
  import opened PageMask
  import opened FsxModel

  // ----- which operation -----

  /** How many operations there are to draw from. */
  function Choices(cfg: Config): nat {
    if cfg.lite then (if cfg.mappedWrites then 4 else 3) else (if cfg.mappedWrites then 5 else 4)
  }

  /** The first draw, modulo the number of choices: 0 reads; 1 writes; 2 reads through a mapping if that is
      enabled and plainly if not; then, except in lite mode, truncation; the last one, if mapped writes are
      enabled, writes through a mapping. */
  lemma {:induction false} DrawnOperation(cfg: Config, rnd: Stream, fileSize: nat, pos: nat)
    requires cfg.Ok() && fileSize <= cfg.maxFileLen
    ensures var c, op := Decode(cfg, rnd, fileSize, pos).0, rnd(pos) % Choices(cfg);
      && (c.ReadCmd? <==> op == 0 || (op == 2 && !cfg.mappedReads))
      && (c.WriteCmd? <==> op == 1)
      && (c.MapReadCmd? <==> op == 2 && cfg.mappedReads)
      && (c.TruncateCmd? <==> op == 3 && !cfg.lite)
      && (c.MapWriteCmd? <==> op == (if cfg.lite then 3 else 4))
  {
  }

  /** The length asked for: drawn if random lengths are on, else the greatest. */
  function Asked(cfg: Config, rnd: Stream, pos: nat): nat {
    if cfg.randomOpLen then rnd(pos + 1) % (cfg.maxOpLen + 1) else cfg.maxOpLen
  }

  /** The draw for the offset comes after that for the length, if there is one. */
  function Placed(cfg: Config, rnd: Stream, pos: nat): nat {
    rnd(if cfg.randomOpLen then pos + 2 else pos + 1)
  }

  /** Offsets are drawn from the whole buffer for writes and from the file for reads; lengths are cut to fit.
      A plain truncation (style 0) draws its size alone. */
  lemma {:induction false} DrawnRange(cfg: Config, rnd: Stream, fileSize: nat, pos: nat)
    requires cfg.Ok() && fileSize <= cfg.maxFileLen
    ensures var (c, next) := Decode(cfg, rnd, fileSize, pos);
      var size, at := Asked(cfg, rnd, pos), Placed(cfg, rnd, pos);
      match c
      case WriteCmd(o, n) => o == at % cfg.maxFileLen && n == (if o + size > cfg.maxFileLen then cfg.maxFileLen - o else size)
      case MapWriteCmd(o, n) => o == at % cfg.maxFileLen && n == (if o + size > cfg.maxFileLen then cfg.maxFileLen - o else size)
      case ReadCmd(o, n) => o == (if fileSize > 0 then at % fileSize else 0) && n == (if o + size > fileSize then fileSize - o else size)
      case MapReadCmd(o, n) => o == (if fileSize > 0 then at % fileSize else 0) && n == (if o + size > fileSize then fileSize - o else size)
      case TruncateCmd(n) => n == if cfg.style == 0 then rnd(pos + 1) % cfg.maxFileLen else size
  {
    hide OpOf;
  }

  /** How far a call of test moves in the random stream. */
  lemma {:induction false} DrawsMade(cfg: Config, rnd: Stream, fileSize: nat, pos: nat)
    requires cfg.Ok() && fileSize <= cfg.maxFileLen
    ensures var (c, next) := Decode(cfg, rnd, fileSize, pos);
      next == pos + 1 + (if c.TruncateCmd? && cfg.style == 0 then 1
                         else (if cfg.randomOpLen then 1 else 0) + (if c.TruncateCmd? then 0 else 1))
  {
    hide OpOf;
  }

  /** The bookkeeping before an operation: it is counted, and each of the two flags is drawn anew if its
      probability is given. */
  lemma {:induction false} FlagsDrawn(cfg: Config, orig: seq<byte>, rnd: Stream, sh: Shadow)
    requires cfg.Ok() && ShadowOk(cfg, sh) && |orig| == cfg.maxFileLen
    ensures var b := Begun(cfg, rnd, sh);
      && b == sh.(calls := sh.calls + 1, closeOpen := b.closeOpen, invl := b.invl)
      && b.closeOpen == (if cfg.closeProb == 0 then sh.closeOpen else rnd(sh.pos) / 8 < 268_435_456 / cfg.closeProb)
      && b.invl == (if cfg.invlProb == 0 then sh.invl else rnd(sh.pos) / 8 < 268_435_456 / cfg.invlProb)
    ensures var d := Decode(cfg, rnd, sh.size, sh.pos);
      Advance(cfg, orig, rnd, sh) == Execute(cfg, orig, Begun(cfg, rnd, sh).(pos := d.1), d.0)
  {
  }

  // ----- log and shadow image -----

  /** The entry is logged, with a mark for each flag that is set. */
  ghost predicate Logs(sh: Shadow, sh': Shadow, e: LogEntry) {
    sh'.log == sh.log + [e] + (if sh.closeOpen then [LogEntry(4, 0, 0, 0)] else [])
                            + (if sh.invl then [LogEntry(8, 0, 0, 0)] else [])
  }

  /** A read is skipped exactly when it is empty or its aligned range does not lie in the file. */
  ghost predicate SkipsRead(cfg: Config, sh: Shadow, offset: nat, size: nat)
    requires cfg.Ok()
  {
    size == 0 || Floor(offset, cfg.readBdy) + size > sh.size
  }

  /** A read logs itself, or SKIPPED, and changes nothing else; code is 1 for read and 5 for a mapped read. */
  ghost predicate ReadLogs(cfg: Config, sh: Shadow, sh': Shadow, code: int, offset: nat, size: nat)
    requires cfg.Ok()
  {
    var o := Floor(offset, cfg.readBdy);
    && Logs(sh, sh', if SkipsRead(cfg, sh, offset, size) then LogEntry(7, code, o, size) else LogEntry(code, o, size, 0))
    && sh' == sh.(log := sh'.log)
  }

  /** A write of size bytes at o: at even offsets the operation number, at odd ones the original byte on top of
      it, both modulo 256; a hole before it is zeroed; and the file size raised if need be. */
  ghost predicate Writes(orig: seq<byte>, sh: Shadow, sh': Shadow, o: nat, size: nat)
    requires |orig| == |sh.good|
  {
    && |sh'.good| == |sh.good|
    && sh'.size == (if o + size > sh.size then o + size else sh.size)
    && forall i :: 0 <= i < |sh.good| ==> (sh'.good[i] ==
         if o <= i < o + size then (if i % 2 == 0 then sh.calls % 256 else (sh.calls + orig[i]) % 256)
         else if sh.size <= i < o then 0
         else sh.good[i])
  }

  /** A write logs itself and writes, or logs SKIPPED when it is empty; code is 2 for write, which logs the old
      file size, and 6 for a mapped write. */
  ghost predicate WriteLogs(cfg: Config, orig: seq<byte>, sh: Shadow, sh': Shadow, code: int, offset: nat, size: nat)
    requires cfg.Ok() && |orig| == |sh.good|
  {
    var o := Floor(offset, cfg.writeBdy);
    && Logs(sh, sh', if size == 0 then LogEntry(7, code, o, 0) else LogEntry(code, o, size, if code == 2 then sh.size else 0))
    && (if size == 0 then sh'.good == sh.good && sh'.size == sh.size else Writes(orig, sh, sh', o, size))
    && sh' == sh.(log := sh'.log, good := sh'.good, size := sh'.size)
  }

  /** A truncation logs the new and the old size, and zeroes what it adds. */
  ghost predicate TruncateLogs(cfg: Config, sh: Shadow, sh': Shadow, size: nat)
    requires cfg.Ok()
  {
    var n := Floor(size, cfg.truncBdy);
    && Logs(sh, sh', LogEntry(3, n, sh.size, 0))
    && sh'.size == n && |sh'.good| == |sh.good|
    && (forall i :: 0 <= i < |sh.good| ==> sh'.good[i] == if sh.size <= i < n then 0 else sh.good[i])
    && sh' == sh.(log := sh'.log, good := sh'.good, size := n)
  }

  /** What a command does to log and shadow image, and what it asks of the file. */
  ghost predicate Means(cfg: Config, orig: seq<byte>, sh: Shadow, sh': Shadow, act: Action, c: Command)
    requires cfg.Ok() && |orig| == |sh.good|
  {
    match c
    case ReadCmd(offset, size) =>
      && ReadLogs(cfg, sh, sh', 1, offset, size)
      && act == if SkipsRead(cfg, sh, offset, size) then Nothing else ReadBack(Floor(offset, cfg.readBdy), size)
    case MapReadCmd(offset, size) =>
      && ReadLogs(cfg, sh, sh', 5, offset, size)
      && act == if SkipsRead(cfg, sh, offset, size) then Nothing else MapReadBack(Floor(offset, cfg.readBdy), size)
    case WriteCmd(offset, size) =>
      && WriteLogs(cfg, orig, sh, sh', 2, offset, size)
      && act == if size == 0 then Nothing else Store(Floor(offset, cfg.writeBdy), size)
    case MapWriteCmd(offset, size) =>
      && WriteLogs(cfg, orig, sh, sh', 6, offset, size)
      && act == if size == 0 then Nothing else MapStore(Floor(offset, cfg.writeBdy), size)
    case TruncateCmd(size) =>
      && TruncateLogs(cfg, sh, sh', size)
      && act == Resize(Floor(size, cfg.truncBdy))
  }

  lemma {:induction false} ExecuteMeans(cfg: Config, orig: seq<byte>, sh: Shadow, c: Command)
    requires cfg.Ok() && ShadowOk(cfg, sh) && |orig| == cfg.maxFileLen && CommandOk(cfg, sh.size, c)
    ensures var a := Execute(cfg, orig, sh, c); Means(cfg, orig, sh, a.0, a.1, c)
  {
    hide ReadLogs, WriteLogs, TruncateLogs, ExecuteRead, ExecuteWrite, ExecuteTruncate;
    match c
    case ReadCmd(offset, size) => ReadMeans(cfg, sh, offset, size, false);
    case MapReadCmd(offset, size) => ReadMeans(cfg, sh, offset, size, true);
    case WriteCmd(offset, size) => WriteMeans(cfg, orig, sh, offset, size, false);
    case MapWriteCmd(offset, size) => WriteMeans(cfg, orig, sh, offset, size, true);
    case TruncateCmd(size) => TruncateMeans(cfg, sh, size);
  }

  lemma {:induction false} ReadMeans(cfg: Config, sh: Shadow, offset: nat, size: nat, mapped: bool)
    requires cfg.Ok() && size <= cfg.maxOpLen
    ensures var a, o := ExecuteRead(cfg, sh, offset, size, mapped), Floor(offset, cfg.readBdy);
      && ReadLogs(cfg, sh, a.0, if mapped then 5 else 1, offset, size)
      && a.1 == if SkipsRead(cfg, sh, offset, size) then Nothing else if mapped then MapReadBack(o, size) else ReadBack(o, size)
  {
  }

  lemma {:induction false} WriteMeans(cfg: Config, orig: seq<byte>, sh: Shadow, offset: nat, size: nat, mapped: bool)
    requires cfg.Ok() && ShadowOk(cfg, sh) && |orig| == cfg.maxFileLen
    requires size <= cfg.maxOpLen && offset + size <= cfg.maxFileLen
    ensures var a, o := ExecuteWrite(cfg, orig, sh, offset, size, mapped), Floor(offset, cfg.writeBdy);
      && WriteLogs(cfg, orig, sh, a.0, if mapped then 6 else 2, offset, size)
      && a.1 == if size == 0 then Nothing else if mapped then MapStore(o, size) else Store(o, size)
  {
    var o := Floor(offset, cfg.writeBdy);
    assert forall i :: 0 <= i < |orig| ==> GenByte(orig, sh.calls, i) == if i % 2 == 0 then sh.calls % 256 else (sh.calls + orig[i]) % 256;
  }

  lemma {:induction false} TruncateMeans(cfg: Config, sh: Shadow, size: nat)
    requires cfg.Ok() && ShadowOk(cfg, sh) && size <= cfg.maxFileLen
    ensures var a := ExecuteTruncate(cfg, sh, size);
      TruncateLogs(cfg, sh, a.0, size) && a.1 == Resize(Floor(size, cfg.truncBdy))
  {
  }

  // ----- mappings -----

  /** What a mapped access during operation n sees at file offset p, when its mapping starts at the page of o. */
  ghost function Seen(env: Env, n: nat, file: File, o: nat, page: nat, p: nat): byte
    requires page > 0 && p >= Floor(o, page)
  {
    env.mem(n, p - Floor(o, page), if p < |file| then file[p] else 0)
  }

  /** check_eofpage: an access that goes beyond the last page boundary in the file sees zeros from the end of
      the file to the end of that page. */
  ghost predicate TailClean(env: Env, n: nat, file: File, o: nat, size: nat, fileSize: nat, page: nat)
    requires page > 0
  {
    o + size > Floor(fileSize, page) ==>
      forall p: nat :: Floor(o, page) <= p && fileSize <= p < Floor(fileSize, page) + page ==> Seen(env, n, file, o, page, p) == 0
  }

  /** The accessed bytes are those given. */
  ghost predicate Shows(env: Env, n: nat, file: File, o: nat, page: nat, want: seq<byte>)
    requires page > 0
  {
    forall p: nat :: o <= p < o + |want| ==> Seen(env, n, file, o, page, p) == want[p - o]
  }

  lemma {:induction false} MappingSeen(env: Env, n: nat, file: File, o: nat, size: nat, page: nat)
    requires page > 0
    ensures var m := Mapped(env, n, file, o, size, page);
      forall p: nat :: Floor(o, page) <= p < Floor(o, page) + |m| ==> m[p - Floor(o, page)] == Seen(env, n, file, o, page, p)
  {
    hide Floor;
  }

  /** A mapping whose access goes beyond the last page boundary in the file ends with that page. */
  lemma {:induction false} MappingEnds(o: nat, size: nat, fileSize: nat, page: nat)
    requires page > 0 && size > 0 && o + size <= fileSize && o + size > Floor(fileSize, page)
    ensures Floor(o, page) + Floor(o % page + size + page - 1, page) == Floor(fileSize, page) + page
  {
    hide Floor;
    var base, last := Floor(o, page), Floor(fileSize, page);
    FloorIs(o, page);
    FloorMod(o, page);
    FloorMod(fileSize, page);
    FloorBelow(o, fileSize, page);
    PageItself(page);
    SumOfMultiples(last, page, page);
    SumOfMultiples(last + page, base, page);
    FloorUnique(o % page + size + page - 1, page, last + page - base);
  }

  lemma {:induction false} FloorIs(x: nat, page: nat)
    requires page > 0
    ensures Floor(x, page) == x - x % page
  {
  }

  lemma {:induction false} TailIsClean(env: Env, n: nat, file: File, o: nat, size: nat, fileSize: nat, page: nat)
    requires page > 0 && size > 0 && o + size <= fileSize
    ensures EofClean(Mapped(env, n, file, o, size, page), o, size, fileSize, page) <==> TailClean(env, n, file, o, size, fileSize, page)
  {
    hide Floor, Mapped, Seen;
    MappingSeen(env, n, file, o, size, page);
    var m, base := Mapped(env, n, file, o, size, page), Floor(o, page);
    if o + size > Floor(fileSize, page) {
      MappingEnds(o, size, fileSize, page);
      assert base <= fileSize;
      forall p: nat | fileSize <= p < Floor(fileSize, page) + page
        ensures m[p - base] == Seen(env, n, file, o, page, p)
      {
      }
      forall i | 0 <= i < |m| && fileSize <= base + i < Floor(fileSize, page) + page
        ensures m[i] == Seen(env, n, file, o, page, base + i)
      {
        assert m[(base + i) - base] == Seen(env, n, file, o, page, base + i);
      }
    }
  }

  lemma {:induction false} BytesShown(env: Env, n: nat, file: File, o: nat, page: nat, want: seq<byte>)
    requires page > 0
    ensures Mapped(env, n, file, o, |want|, page)[o % page..o % page + |want|] == want <==> Shows(env, n, file, o, page, want)
  {
    hide Floor, Mapped, Seen;
    MappingSeen(env, n, file, o, |want|, page);
    FloorIs(o, page);
    var m := Mapped(env, n, file, o, |want|, page);
    var got := m[o % page..o % page + |want|];
    assert forall i :: 0 <= i < |want| ==> got[i] == m[o % page + i];
    if got == want {
      forall p: nat | o <= p < o + |want|
        ensures Seen(env, n, file, o, page, p) == want[p - o]
      {
        assert got[p - o] == want[p - o];
      }
    } else if Shows(env, n, file, o, page, want) {
      forall i | 0 <= i < |want|
        ensures got[i] == want[i]
      {
        assert Seen(env, n, file, o, page, o + i) == want[(o + i) - o];
      }
    }
  }

  // ----- operations on the tested file -----

  /** An operation that is only simulated, or has nothing to do. */
  ghost predicate Idle(cfg: Config, w: World, nothing: bool) {
    nothing || w.sh.calls <= cfg.simulated
  }

  /** badoff is the greatest offset at which want and got differ. */
  ghost predicate LastBad(badoff: int, o: nat, want: seq<byte>, got: seq<byte>)
    requires |want| == |got|
  {
    && o <= badoff < o + |want| && want[badoff - o] != got[badoff - o]
    && forall i :: badoff - o < i < |want| ==> want[i] == got[i]
  }

  /** doread. A real read passes exactly when the reply is the shadow image of the range: one of another
      length ends the program with 141, any other with 110. */
  ghost predicate Reads(cfg: Config, env: Env, w: World, w': World, offset: nat, size: nat)
    requires cfg.Ok() && ShadowOk(cfg, w.sh)
  {
    var o := Floor(offset, cfg.readBdy);
    && ReadLogs(cfg, w.sh, w'.sh, 1, offset, size) && w'.file == w.file
    && (if Idle(cfg, w, SkipsRead(cfg, w.sh, offset, size)) then w'.failed == 0 && w'.badoff == w.badoff
        else
          var want, got := w.sh.good[o..o + size], env.read(w.sh.calls, PRead(w.file, o, size));
          && w'.failed == (if |got| != size then 141 else if got != want then 110 else 0)
          && (if w'.failed == 110 then LastBad(w'.badoff, o, want, got) else w'.badoff == w.badoff))
  }

  /** domapread. A real one passes exactly when the tail of the last page is clean, else 205, and the mapping
      shows the shadow image of the range, else 110. */
  ghost predicate MapReads(cfg: Config, env: Env, w: World, w': World, offset: nat, size: nat)
    requires cfg.Ok() && ShadowOk(cfg, w.sh)
  {
    var o, page := Floor(offset, cfg.readBdy), cfg.PageSize();
    && ReadLogs(cfg, w.sh, w'.sh, 5, offset, size) && w'.file == w.file
    && w'.failed == (if Idle(cfg, w, SkipsRead(cfg, w.sh, offset, size)) then 0
                     else if !TailClean(env, w.sh.calls, w.file, o, size, w.sh.size, page) then 205
                     else if !Shows(env, w.sh.calls, w.file, o, page, w.sh.good[o..o + size]) then 110
                     else 0)
  }

  /** dowrite. In lite mode a file that would grow ends the program with 149. */
  ghost predicate WritesFile(cfg: Config, orig: seq<byte>, env: Env, w: World, w': World, offset: nat, size: nat)
    requires cfg.Ok() && ShadowOk(cfg, w.sh) && |orig| == cfg.maxFileLen && offset + size <= cfg.maxFileLen
  {
    var o := Floor(offset, cfg.writeBdy);
    && WriteLogs(cfg, orig, w.sh, w'.sh, 2, offset, size) && w'.badoff == w.badoff
    && w'.failed == (if cfg.lite && size > 0 && o + size > w.sh.size then 149 else 0)
    && |w'.sh.good| == cfg.maxFileLen
    && w'.file == (if Idle(cfg, w, size == 0) || w'.failed != 0 then w.file else PWrite(w.file, o, w'.sh.good[o..o + size]))
  }

  /** domapwrite. A file that grows is extended first; the tail of the last page must be clean afterwards. */
  ghost predicate MapWritesFile(cfg: Config, orig: seq<byte>, env: Env, w: World, w': World, offset: nat, size: nat)
    requires cfg.Ok() && ShadowOk(cfg, w.sh) && |orig| == cfg.maxFileLen && offset + size <= cfg.maxFileLen
  {
    var o := Floor(offset, cfg.writeBdy);
    var grows := size > 0 && o + size > w.sh.size;
    && WriteLogs(cfg, orig, w.sh, w'.sh, 6, offset, size) && w'.badoff == w.badoff
    && |w'.sh.good| == cfg.maxFileLen
    && (if cfg.lite && grows then w'.failed == 200 && w'.file == w.file
        else if Idle(cfg, w, size == 0) then w'.failed == 0 && w'.file == w.file
        else
          && w'.file == PWrite(if grows then FTruncate(w.file, o + size) else w.file, o, w'.sh.good[o..o + size])
          && w'.failed == if TailClean(env, w.sh.calls, w'.file, o, size, w'.sh.size, cfg.PageSize()) then 0 else 205)
  }

  /** dotruncate. */
  ghost predicate TruncatesFile(cfg: Config, w: World, w': World, size: nat)
    requires cfg.Ok()
  {
    && TruncateLogs(cfg, w.sh, w'.sh, size) && w'.badoff == w.badoff && w'.failed == 0
    && w'.file == if Idle(cfg, w, false) then w.file else FTruncate(w.file, Floor(size, cfg.truncBdy))
  }

  /** One operation, from the state in which it has been counted. */
  ghost function Did(cfg: Config, orig: seq<byte>, env: Env, w: World, c: Command): World
    requires cfg.Ok() && ShadowOk(cfg, w.sh) && |orig| == cfg.maxFileLen && CommandOk(cfg, w.sh.size, c)
  {
    var a := Execute(cfg, orig, w.sh, c);
    Operated(cfg, env, w.(sh := a.0), a.0.size > w.sh.size, a.1)
  }

  lemma {:induction false} DidRead(cfg: Config, orig: seq<byte>, env: Env, w: World, offset: nat, size: nat)
    requires cfg.Ok() && ShadowOk(cfg, w.sh) && |orig| == cfg.maxFileLen && w.failed == 0
    requires CommandOk(cfg, w.sh.size, ReadCmd(offset, size))
    ensures Reads(cfg, env, w, Did(cfg, orig, env, w, ReadCmd(offset, size)), offset, size)
  {
    hide Execute, ReadLogs, Floor, Logs, PRead;
    ExecuteMeans(cfg, orig, w.sh, ReadCmd(offset, size));
    ReadKeeps(cfg, orig, w.sh, ReadCmd(offset, size));
  }

  lemma {:induction false} DidMapRead(cfg: Config, orig: seq<byte>, env: Env, w: World, offset: nat, size: nat)
    requires cfg.Ok() && ShadowOk(cfg, w.sh) && |orig| == cfg.maxFileLen && w.failed == 0
    requires CommandOk(cfg, w.sh.size, MapReadCmd(offset, size))
    ensures MapReads(cfg, env, w, Did(cfg, orig, env, w, MapReadCmd(offset, size)), offset, size)
  {
    hide Execute, ReadLogs, Floor, Logs, Mapped, EofClean, TailClean, Shows, Pow2, LastDifference;
    var c, o, page := MapReadCmd(offset, size), Floor(offset, cfg.readBdy), cfg.PageSize();
    ExecuteMeans(cfg, orig, w.sh, c);
    ReadKeeps(cfg, orig, w.sh, c);
    if !SkipsRead(cfg, w.sh, offset, size) {
      TailIsClean(env, w.sh.calls, w.file, o, size, w.sh.size, page);
      BytesShown(env, w.sh.calls, w.file, o, page, w.sh.good[o..o + size]);
    }
  }

  lemma {:induction false} ReadKeeps(cfg: Config, orig: seq<byte>, sh: Shadow, c: Command)
    requires cfg.Ok() && ShadowOk(cfg, sh) && |orig| == cfg.maxFileLen && CommandOk(cfg, sh.size, c) && (c.ReadCmd? || c.MapReadCmd?)
    ensures var a := Execute(cfg, orig, sh, c); a.0.size == sh.size && a.0.good == sh.good && a.0.calls == sh.calls
  {
    hide Logged;
  }

  lemma {:induction false} DidWrite(cfg: Config, orig: seq<byte>, env: Env, w: World, offset: nat, size: nat)
    requires cfg.Ok() && ShadowOk(cfg, w.sh) && |orig| == cfg.maxFileLen && w.failed == 0
    requires CommandOk(cfg, w.sh.size, WriteCmd(offset, size))
    ensures WritesFile(cfg, orig, env, w, Did(cfg, orig, env, w, WriteCmd(offset, size)), offset, size)
  {
    hide Execute, Floor, Logs, PWrite;
    ExecuteMeans(cfg, orig, w.sh, WriteCmd(offset, size));
  }

  lemma {:induction false} DidMapWrite(cfg: Config, orig: seq<byte>, env: Env, w: World, offset: nat, size: nat)
    requires cfg.Ok() && ShadowOk(cfg, w.sh) && |orig| == cfg.maxFileLen && w.failed == 0
    requires CommandOk(cfg, w.sh.size, MapWriteCmd(offset, size))
    ensures MapWritesFile(cfg, orig, env, w, Did(cfg, orig, env, w, MapWriteCmd(offset, size)), offset, size)
  {
    hide Execute, Floor, Logs, PWrite, FTruncate, Mapped, EofClean, TailClean, Pow2;
    var c, o, page := MapWriteCmd(offset, size), Floor(offset, cfg.writeBdy), cfg.PageSize();
    ExecuteMeans(cfg, orig, w.sh, c);
    if size > 0 {
      var sh := Execute(cfg, orig, w.sh, c).0;
      var f := PWrite(if o + size > w.sh.size then FTruncate(w.file, o + size) else w.file, o, sh.good[o..o + size]);
      TailIsClean(env, w.sh.calls, f, o, size, sh.size, page);
    }
  }

  lemma {:induction false} DidTruncate(cfg: Config, orig: seq<byte>, env: Env, w: World, size: nat)
    requires cfg.Ok() && ShadowOk(cfg, w.sh) && |orig| == cfg.maxFileLen && w.failed == 0
    requires CommandOk(cfg, w.sh.size, TruncateCmd(size))
    ensures TruncatesFile(cfg, w, Did(cfg, orig, env, w, TruncateCmd(size)), size)
  {
    hide Execute, Floor, Logs, FTruncate;
    ExecuteMeans(cfg, orig, w.sh, TruncateCmd(size));
  }
}
