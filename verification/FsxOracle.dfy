/** fsx.c as an oracle: on an ideal file system no check ever fails, and on any other a run is only stopped,
    and always stopped, by a reply that differs from what the operation log demands. */
module FsxOracle {
  import opened PageMask
  import opened FsxModel
  import opened FsxShadow
  import opened FsxMeaning

  // ----- the file, operation by operation -----

  /** The tested file as the shadow has it. */
  function Image(sh: Shadow): File
    requires sh.size <= |sh.good|
  {
    sh.good[..sh.size]
  }

  /** How an action relates the image before and after it. */
  ghost predicate Relates(old': Shadow, new': Shadow, act: Action)
    requires old'.size <= |old'.good| == |new'.good| && new'.size <= |new'.good|
  {
    match act
    case Nothing => Image(new') == Image(old')
    case ReadBack(_, _) => Image(new') == Image(old')
    case MapReadBack(_, _) => Image(new') == Image(old')
    case Store(o, n) => Overwrites(old', new', o, n)
    case MapStore(o, n) => Overwrites(old', new', o, n)
    case Resize(n) => n == new'.size && Image(new') == FTruncate(Image(old'), n)
  }

  ghost predicate Overwrites(old': Shadow, new': Shadow, o: nat, n: nat)
    requires old'.size <= |old'.good| == |new'.good| && new'.size <= |new'.good|
  {
    && n > 0
    && new'.size == (if old'.size < o + n then o + n else old'.size)
    && forall i :: 0 <= i < new'.size && !(o <= i < o + n) ==> new'.good[i] == if i < old'.size then old'.good[i] else 0
  }

  lemma {:induction false} ExecuteRelates(cfg: Config, orig: seq<byte>, sh: Shadow, c: Command)
    requires cfg.Ok() && ShadowOk(cfg, sh) && |orig| == cfg.maxFileLen && CommandOk(cfg, sh.size, c)
    ensures var a := Execute(cfg, orig, sh, c);
      && Relates(sh, a.0, a.1)
      && (cfg.lite && sh.size == cfg.maxFileLen ==> a.0.size == cfg.maxFileLen)
  {
    hide ExecuteRead, ExecuteWrite, ExecuteTruncate, Relates;
    match c
    case ReadCmd(offset, size) => ReadRelates(cfg, sh, offset, size, false);
    case MapReadCmd(offset, size) => ReadRelates(cfg, sh, offset, size, true);
    case WriteCmd(offset, size) => WriteRelates(cfg, orig, sh, offset, size, false);
    case MapWriteCmd(offset, size) => WriteRelates(cfg, orig, sh, offset, size, true);
    case TruncateCmd(size) => TruncateRelates(cfg, sh, size);
  }

  lemma {:induction false} AdvanceRelates(cfg: Config, orig: seq<byte>, rnd: Stream, sh: Shadow)
    requires cfg.Ok() && ShadowOk(cfg, sh) && |orig| == cfg.maxFileLen
    ensures var a := Advance(cfg, orig, rnd, sh); Relates(sh, a.0, a.1)
    ensures cfg.lite && sh.size == cfg.maxFileLen ==> Advance(cfg, orig, rnd, sh).0.size == cfg.maxFileLen
  {
    hide Execute, Relates, Decode;
    var d := Decode(cfg, rnd, sh.size, sh.pos);
    var c := Begun(cfg, rnd, sh).(pos := d.1);
    var a := Execute(cfg, orig, c, d.0);
    ExecuteRelates(cfg, orig, c, d.0);
    SameImage(sh, c, a.0, a.1);
  }

  lemma {:induction false} SameImage(sh: Shadow, c: Shadow, sh': Shadow, act: Action)
    requires sh.size <= |sh.good| == |sh'.good| && sh'.size <= |sh'.good| && c.good == sh.good && c.size == sh.size
    requires Relates(c, sh', act)
    ensures Relates(sh, sh', act)
  {
  }

  lemma {:induction false} ReadRelates(cfg: Config, sh: Shadow, offset: nat, size: nat, mapped: bool)
    requires cfg.Ok() && ShadowOk(cfg, sh) && size <= cfg.maxOpLen
    ensures var a := ExecuteRead(cfg, sh, offset, size, mapped); Relates(sh, a.0, a.1) && a.0.size == sh.size
  {
  }

  lemma {:induction false} WriteRelates(cfg: Config, orig: seq<byte>, sh: Shadow, offset: nat, size: nat, mapped: bool)
    requires cfg.Ok() && ShadowOk(cfg, sh) && |orig| == cfg.maxFileLen
    requires size <= cfg.maxOpLen && offset + size <= cfg.maxFileLen
    ensures var a := ExecuteWrite(cfg, orig, sh, offset, size, mapped); Relates(sh, a.0, a.1)
    ensures sh.size == cfg.maxFileLen ==> ExecuteWrite(cfg, orig, sh, offset, size, mapped).0.size == cfg.maxFileLen
  {
    hide Logged, GenByte;
  }

  lemma {:induction false} TruncateRelates(cfg: Config, sh: Shadow, size: nat)
    requires cfg.Ok() && ShadowOk(cfg, sh) && size <= cfg.maxFileLen
    ensures var a := ExecuteTruncate(cfg, sh, size); Relates(sh, a.0, a.1)
  {
  }

  /** The file of the simulated phase. */
  ghost predicate FileOk(cfg: Config, w: World) {
    && ShadowOk(cfg, w.sh)
    && (cfg.lite ==> w.sh.size == cfg.maxFileLen)
    && w.file == if cfg.simulated == 0 || w.sh.calls > cfg.simulated then Image(w.sh) else Start(cfg).file
  }

  /** Before a real operation the file is the shadow image. */
  lemma {:induction false} PreparedIsImage(cfg: Config, w: World)
    requires FileOk(cfg, w) && w.sh.calls >= cfg.simulated
    ensures Prepared(cfg, w).file == Image(w.sh)
  {
  }

  /** The file after a real operation. */
  function FileAfter(sh: Shadow, file: File, grew: bool, act: Action): File
    requires match act { case Store(o, n) => o + n <= |sh.good| case MapStore(o, n) => o + n <= |sh.good| case _ => true }
  {
    match act
    case Store(o, n) => PWrite(file, o, sh.good[o..o + n])
    case MapStore(o, n) => PWrite(if grew then FTruncate(file, sh.size) else file, o, sh.good[o..o + n])
    case Resize(n) => FTruncate(file, n)
    case _ => file
  }

  lemma {:induction false} FileFollows(cfg: Config, sh: Shadow, sh': Shadow, act: Action)
    requires ShadowOk(cfg, sh) && ShadowOk(cfg, sh') && ActionOk(cfg, sh', act) && Relates(sh, sh', act)
    ensures FileAfter(sh', Image(sh), sh'.size > sh.size, act) == Image(sh')
  {
  }

  // ----- the replies -----

  /** The part of the file that the log demands at offset. */
  function Wanted(orig: seq<byte>, log: seq<LogEntry>, offset: nat, n: nat): (r: seq<byte>)
    requires offset + n <= |orig|
    ensures |r| == n && forall i :: 0 <= i < n ==> r[i] == RefByte(orig, log, offset + i)
  {
    seq<byte>(n, i requires 0 <= i < n => RefByte(orig, log, offset + i))
  }

  lemma {:induction false} WantedIsImage(cfg: Config, orig: seq<byte>, sh: Shadow, offset: nat, n: nat)
    requires Explains(cfg, orig, sh) && offset + n <= sh.size
    ensures Wanted(orig, sh.log, offset, n) == sh.good[offset..offset + n] == PRead(Image(sh), offset, n)
  {
  }

  /** The replies to the action of operation number sh.calls are those the log demands. */
  ghost predicate Answered(cfg: Config, orig: seq<byte>, env: Env, sh: Shadow, act: Action)
    requires ShadowOk(cfg, sh) && |orig| == cfg.maxFileLen && ActionOk(cfg, sh, act)
  {
    var n, page, file := sh.calls, cfg.PageSize(), Wanted(orig, sh.log, 0, sh.size);
    && (match act
        case ReadBack(o, size) => env.read(n, Wanted(orig, sh.log, o, size)) == Wanted(orig, sh.log, o, size)
        case MapReadBack(o, size) =>
          var m := Mapped(env, n, file, o, size, page);
          m[o % page..o % page + size] == Wanted(orig, sh.log, o, size) && EofClean(m, o, size, sh.size, page)
        case MapStore(o, size) => EofClean(Mapped(env, n, file, o, size, page), o, size, sh.size, page)
        case _ => true)
    && (cfg.sizeChecks ==> env.stat(n, sh.size) == sh.size && env.seek(n, sh.size) == sh.size)
  }

  /** The checks of a real operation pass exactly when its replies are correct. */
  lemma {:induction false} ChecksAreExact(cfg: Config, orig: seq<byte>, env: Env, sh: Shadow, w: World, act: Action)
    requires ShadowOk(cfg, sh) && ShadowOk(cfg, w.sh) && Explains(cfg, orig, w.sh) && |orig| == cfg.maxFileLen
    requires w.failed == 0 && ActionOk(cfg, w.sh, act) && Relates(sh, w.sh, act) && w.file == Image(sh)
    ensures var r := SizeChecked(cfg, env, Performed(cfg, env, w, w.sh.size > sh.size, act));
      && r.file == Image(w.sh)
      && (r.failed == 0 <==> Answered(cfg, orig, env, w.sh, act))
  {
    hide Explains, RefByte, Relates, Performed, Mapped, EofClean, Image, Wanted, Pow2, FileAfter;
    WantedIsWhole(cfg, orig, w.sh);
    match act
    case ReadBack(o, size) =>
      ReadsKeepImage(sh, w.sh, act);
      ReadIsExact(cfg, orig, env, w, w.sh.size > sh.size, o, size);
    case MapReadBack(o, size) =>
      ReadsKeepImage(sh, w.sh, act);
      MapReadIsExact(cfg, orig, env, w, w.sh.size > sh.size, o, size);
    case _ =>
      FileFollows(cfg, sh, w.sh, act);
      ReadsKeepImage(sh, w.sh, act);
      WritesPerformed(cfg, env, sh, w, act);
  }

  /** The two mapped operations on the file, spelled out. */
  lemma {:induction false} MapReadPerformed(cfg: Config, env: Env, w: World, grew: bool, o: nat, size: nat)
    requires ShadowOk(cfg, w.sh) && ActionOk(cfg, w.sh, MapReadBack(o, size))
    ensures var m := Mapped(env, w.sh.calls, w.file, o, size, cfg.PageSize());
      Performed(cfg, env, w, grew, MapReadBack(o, size))
        == if !EofClean(m, o, size, w.sh.size, cfg.PageSize()) then w.(failed := 205)
           else Compared(w, o, m[o % cfg.PageSize()..o % cfg.PageSize() + size])
  {
    hide Mapped, EofClean, Compared, Pow2;
  }

  lemma {:induction false} MapStorePerformed(cfg: Config, env: Env, w: World, grew: bool, o: nat, size: nat)
    requires ShadowOk(cfg, w.sh) && ActionOk(cfg, w.sh, MapStore(o, size))
    ensures var f := PWrite(if grew then FTruncate(w.file, w.sh.size) else w.file, o, w.sh.good[o..o + size]);
      var m := Mapped(env, w.sh.calls, f, o, size, cfg.PageSize());
      Performed(cfg, env, w, grew, MapStore(o, size))
        == if EofClean(m, o, size, w.sh.size, cfg.PageSize()) then w.(file := f) else w.(file := f, failed := 205)
  {
    hide Mapped, EofClean, PWrite, FTruncate, Pow2;
  }

  lemma {:induction false} ReadIsExact(cfg: Config, orig: seq<byte>, env: Env, w: World, grew: bool, o: nat, size: nat)
    requires ShadowOk(cfg, w.sh) && Explains(cfg, orig, w.sh) && |orig| == cfg.maxFileLen
    requires w.failed == 0 && ActionOk(cfg, w.sh, ReadBack(o, size)) && w.file == Image(w.sh)
    ensures var p := Performed(cfg, env, w, grew, ReadBack(o, size));
      var want := Wanted(orig, w.sh.log, o, size);
      p.file == w.file && (p.failed == 0 <==> env.read(w.sh.calls, want) == want)
  {
    hide Explains;
    WantedIsImage(cfg, orig, w.sh, o, size);
  }

  lemma {:induction false} MapReadIsExact(cfg: Config, orig: seq<byte>, env: Env, w: World, grew: bool, o: nat, size: nat)
    requires ShadowOk(cfg, w.sh) && Explains(cfg, orig, w.sh) && |orig| == cfg.maxFileLen
    requires w.failed == 0 && ActionOk(cfg, w.sh, MapReadBack(o, size)) && w.file == Image(w.sh)
    ensures var p := Performed(cfg, env, w, grew, MapReadBack(o, size));
      var page := cfg.PageSize();
      var m := Mapped(env, w.sh.calls, w.file, o, size, page);
      p.file == w.file && (p.failed == 0 <==>
        m[o % page..o % page + size] == Wanted(orig, w.sh.log, o, size) && EofClean(m, o, size, w.sh.size, page))
  {
    hide Explains, Mapped, EofClean, Pow2, Floor, Image, Wanted, Performed;
    MapReadPerformed(cfg, env, w, grew, o, size);
    WantedIsImage(cfg, orig, w.sh, o, size);
    var page := cfg.PageSize();
    ComparedIsExact(w, o, Mapped(env, w.sh.calls, w.file, o, size, page)[o % page..o % page + size]);
  }

  lemma {:induction false} ComparedIsExact(w: World, o: nat, got: seq<byte>)
    requires o + |got| <= |w.sh.good| && w.failed == 0
    ensures Compared(w, o, got).file == w.file
    ensures Compared(w, o, got).failed == 0 <==> got == w.sh.good[o..o + |got|]
  {
  }

  lemma {:induction false} WritesPerformed(cfg: Config, env: Env, sh: Shadow, w: World, act: Action)
    requires ShadowOk(cfg, w.sh) && w.failed == 0 && ActionOk(cfg, w.sh, act)
    requires !act.ReadBack? && !act.MapReadBack?
    ensures var p := Performed(cfg, env, w, w.sh.size > sh.size, act);
      && p.file == FileAfter(w.sh, w.file, w.sh.size > sh.size, act)
      && (p.failed == 0 <==> (act.MapStore? ==>
           EofClean(Mapped(env, w.sh.calls, p.file, act.offset, act.size, cfg.PageSize()), act.offset, act.size, w.sh.size, cfg.PageSize())))
  {
  }

  lemma {:induction false} ReadsKeepImage(sh: Shadow, sh': Shadow, act: Action)
    requires sh.size <= |sh.good| == |sh'.good| && sh'.size <= |sh'.good|
    requires Relates(sh, sh', act)
    ensures act.ReadBack? || act.MapReadBack? || act.Nothing? ==> Image(sh) == Image(sh')
  {
  }

  lemma {:induction false} WantedIsWhole(cfg: Config, orig: seq<byte>, sh: Shadow)
    requires Explains(cfg, orig, sh)
    ensures Wanted(orig, sh.log, 0, sh.size) == Image(sh)
  {
  }

  // ----- the suspected operation -----

  /** At an even offset the shadow image has the number of the operation that last wrote it. */
  lemma {:induction false} EvenByte(cfg: Config, orig: seq<byte>, sh: Shadow, q: nat)
    requires Explains(cfg, orig, sh) && q < sh.size && q % 2 == 0
    ensures q < |sh.good| && forall n: nat :: LastWriter(sh.log, q) == Operation(n) ==> sh.good[q] == n % 0x100
  {
    hide LastWriter, Primaries, RefSize;
    assert sh.good[q] == RefByte(orig, sh.log, q);
  }

  /** The two bytes at the first bad byte lie inside both buffers exactly when it is the last byte of neither.
      And the operation number printed with it is taken from the even offset q at or next behind that byte: if q
      was read at all, the number is that of the last operation to write q exactly when the bad byte is at an
      odd offset and what was read at q is right. So at an even offset the operation that last wrote the bad
      byte is never the one that is named. */
  lemma {:induction false} SuspectedOperation(cfg: Config, orig: seq<byte>, sh: Shadow, temp: seq<byte>, offset: nat, size: nat)
    requires Explains(cfg, orig, sh) && offset + size <= sh.size <= |sh.good| && size <= |temp|
    requires sh.good[offset..offset + size] != temp[..size]
    ensures var k := FirstDifference(sh.good[offset..offset + size], temp[..size], size);
      && k < size
      && var m := MismatchAt(sh.good, temp, offset, k);
      && m.at == offset + k
      && (m.good.Inside? && m.bad.Inside? <==> k + 1 < |temp| && offset + k + 1 < |sh.good|)
      && (m.good.Inside? ==> m.good.value == 256 * (sh.good[m.at] as int) + sh.good[m.at + 1])
      && (m.bad.Inside? ==> m.bad.value == 256 * (temp[k] as int) + temp[k + 1])
      && var q := if m.at % 2 == 1 then m.at + 1 else m.at;
      && (q < offset + size ==> forall n: nat :: LastWriter(sh.log, q) == Operation(n) ==>
           (m.number == Inside(n % 0x100) <==> m.at % 2 == 1 && temp[q - offset] == sh.good[q]))
  {
    hide LastWriter, Explains, FirstDifference, ShadowOk;
    var want, got := sh.good[offset..offset + size], temp[..size];
    var k := FirstDifference(want, got, size);
    assert k < size by {
      assert k == size ==> want == got;
    }
    assert sh.good[offset + k] == want[k] != got[k] == temp[k];
    var p := offset + k;
    var q := if p % 2 == 1 then p + 1 else p;
    if q < offset + size {
      EvenByte(cfg, orig, sh, q);
    }
  }

  // ----- one call of test -----

  /** What the run so far has established. */
  ghost predicate Reached(cfg: Config, orig: seq<byte>, w: World) {
    Explains(cfg, orig, w.sh) && |orig| == cfg.maxFileLen && FileOk(cfg, w)
  }

  /** One more operation passes exactly when it is only simulated or correctly answered; whatever the
      replies, the tested file keeps following the shadow image. */
  lemma {:induction false} TestIsExact(cfg: Config, orig: seq<byte>, rnd: Stream, env: Env, w: World)
    requires cfg.Ok() && Reached(cfg, orig, w) && w.failed == 0
    ensures var r := Test(cfg, orig, rnd, env, w);
      var a := Advance(cfg, orig, rnd, w.sh);
      && Reached(cfg, orig, r) && r.sh == a.0
      && (r.failed == 0 <==> a.0.calls <= cfg.simulated || Answered(cfg, orig, env, a.0, a.1))
  {
    hide Advance, Performed, SizeChecked, Explains, Answered, Relates, WithImage;
    var a := Advance(cfg, orig, rnd, w.sh);
    AdvanceExplained(cfg, orig, rnd, w.sh);
    AdvanceRelates(cfg, orig, rnd, w.sh);
    if a.0.calls > cfg.simulated {
      PreparedIsImage(cfg, w);
      ChecksAreExact(cfg, orig, env, w.sh, Prepared(cfg, w).(sh := a.0), a.1);
    }
  }

  // ----- what a command demands of the file system -----

  /** The file size that a log demands. */
  function LoggedSize(cfg: Config, log: seq<LogEntry>): int {
    RefSize(if cfg.lite then cfg.maxFileLen else 0, log)
  }

  /** The file system answers operation number n, the command c, with what the log and the file size demand: a
      read of some bytes inside the file must give them back, a mapped one must also show a clean tail of the
      last page, as must a mapped write; and fstat and lseek must agree on the size if they are asked. */
  ghost predicate Correct(cfg: Config, orig: seq<byte>, env: Env, n: nat, log: seq<LogEntry>, size: nat, c: Command)
    requires cfg.Ok() && size <= |orig| == cfg.maxFileLen && CommandOk(cfg, size, c)
  {
    var page, file := cfg.PageSize(), Wanted(orig, log, 0, size);
    && (match c
        case ReadCmd(offset, len) =>
          var o := Floor(offset, cfg.readBdy);
          len > 0 && o + len <= size ==> env.read(n, Wanted(orig, log, o, len)) == Wanted(orig, log, o, len)
        case MapReadCmd(offset, len) =>
          var o := Floor(offset, cfg.readBdy);
          len > 0 && o + len <= size ==>
            Shows(env, n, file, o, page, Wanted(orig, log, o, len)) && TailClean(env, n, file, o, len, size, page)
        case MapWriteCmd(offset, len) =>
          len > 0 ==> TailClean(env, n, file, Floor(offset, cfg.writeBdy), len, size, page)
        case WriteCmd(offset, len) => true
        case TruncateCmd(newSize) => true)
    && (cfg.sizeChecks ==> env.stat(n, size) == size && env.seek(n, size) == size)
  }

  lemma {:induction false} AnsweredIsCorrect(cfg: Config, orig: seq<byte>, env: Env, sh: Shadow, sh': Shadow, act: Action, c: Command)
    requires cfg.Ok() && ShadowOk(cfg, sh) && ShadowOk(cfg, sh') && |orig| == cfg.maxFileLen
    requires CommandOk(cfg, sh.size, c) && ActionOk(cfg, sh', act) && Means(cfg, orig, sh, sh', act, c)
    ensures CommandOk(cfg, sh'.size, c)
    ensures Answered(cfg, orig, env, sh', act) <==> Correct(cfg, orig, env, sh'.calls, sh'.log, sh'.size, c)
  {
    hide Wanted, Mapped, EofClean, Shows, TailClean, Floor, Pow2, Logs, Writes;
    var n, page, file := sh'.calls, cfg.PageSize(), Wanted(orig, sh'.log, 0, sh'.size);
    match act
    case MapReadBack(o, size) =>
      BytesShown(env, n, file, o, page, Wanted(orig, sh'.log, o, size));
      TailIsClean(env, n, file, o, size, sh'.size, page);
    case MapStore(o, size) =>
      TailIsClean(env, n, file, o, size, sh'.size, page);
    case _ =>
  }

  /** The sizes of log and shadow image agree before and after one more operation. */
  lemma {:induction false} SizesAgree(cfg: Config, orig: seq<byte>, rnd: Stream, env: Env, k: nat)
    requires cfg.Ok() && |orig| == cfg.maxFileLen
    ensures var sh := Run(cfg, orig, rnd, env, k).sh;
      var after := Advance(cfg, orig, rnd, sh).0;
      && LoggedSize(cfg, sh.log) == sh.size <= cfg.maxFileLen
      && LoggedSize(cfg, after.log) == after.size <= cfg.maxFileLen
      && CommandOk(cfg, after.size, Decode(cfg, rnd, sh.size, sh.pos).0)
  {
    hide Advance, Run, Decode, RefSize, RefByte, Primaries;
    ByteProvenance(cfg, orig, rnd, env, k);
    AdvanceExplained(cfg, orig, rnd, Run(cfg, orig, rnd, env, k).sh);
    CommandStays(cfg, rnd, Run(cfg, orig, rnd, env, k).sh, Advance(cfg, orig, rnd, Run(cfg, orig, rnd, env, k).sh).0.size);
  }

  lemma {:induction false} CommandStays(cfg: Config, rnd: Stream, sh: Shadow, size: nat)
    requires cfg.Ok() && ShadowOk(cfg, sh)
    ensures CommandOk(cfg, size, Decode(cfg, rnd, sh.size, sh.pos).0)
  {
    hide Decode;
  }

  // ----- whole runs -----

  /** Operation number k + 1 of the run, if it is a real one, is correctly answered: the command drawn for it
      at the file size that the log so far demands. */
  ghost predicate CorrectAt(cfg: Config, orig: seq<byte>, rnd: Stream, env: Env, k: nat)
    requires cfg.Ok() && |orig| == cfg.maxFileLen
  {
    k >= cfg.simulated ==>
      var sh := Run(cfg, orig, rnd, env, k).sh;
      var log := Advance(cfg, orig, rnd, sh).0.log;
      SizesAgree(cfg, orig, rnd, env, k);
      Correct(cfg, orig, env, sh.calls + 1, log, LoggedSize(cfg, log), Decode(cfg, rnd, LoggedSize(cfg, sh.log), sh.pos).0)
  }

  /** The command drawn is answered correctly exactly when its action is. */
  lemma {:induction false} CommandAnswered(cfg: Config, orig: seq<byte>, rnd: Stream, env: Env, k: nat)
    requires cfg.Ok() && |orig| == cfg.maxFileLen && k >= cfg.simulated
    ensures var a := Advance(cfg, orig, rnd, Run(cfg, orig, rnd, env, k).sh);
      CorrectAt(cfg, orig, rnd, env, k) <==> Answered(cfg, orig, env, a.0, a.1)
  {
    hide Run, Decode, Execute, Correct, Answered, Means, LoggedSize;
    var sh := Run(cfg, orig, rnd, env, k).sh;
    var d := Decode(cfg, rnd, sh.size, sh.pos);
    var begun := Begun(cfg, rnd, sh).(pos := d.1);
    var a := Execute(cfg, orig, begun, d.0);
    SizesAgree(cfg, orig, rnd, env, k);
    ExecuteMeans(cfg, orig, begun, d.0);
    AnsweredIsCorrect(cfg, orig, env, begun, a.0, a.1, d.0);
  }

  lemma {:induction false} NotYetReal(cfg: Config, orig: seq<byte>, rnd: Stream, env: Env, k: nat)
    requires cfg.Ok() && |orig| == cfg.maxFileLen && k < cfg.simulated
    ensures CorrectAt(cfg, orig, rnd, env, k)
  {
  }

  lemma {:induction false} StartReached(cfg: Config, orig: seq<byte>)
    requires cfg.Ok() && |orig| == cfg.maxFileLen
    ensures Reached(cfg, orig, Start(cfg))
  {
  }

  /** Soundness and completeness: a run is stopped by a check exactly when some reply of the file system to
      a real operation differs from what the log demands; until then the tested file is the shadow image. */
  lemma {:induction false} OracleIsExact(cfg: Config, orig: seq<byte>, rnd: Stream, env: Env, k: nat)
    requires cfg.Ok() && |orig| == cfg.maxFileLen
    ensures var w := Run(cfg, orig, rnd, env, k);
      && (w.failed == 0 <==> forall j: nat :: j < k ==> CorrectAt(cfg, orig, rnd, env, j))
      && (w.failed == 0 ==> Reached(cfg, orig, w) && w.sh.calls == k)
  {
    hide Advance, Applied, Prepared, Explains, Answered, CorrectAt, FileOk, Start;
    if k == 0 {
      StartReached(cfg, orig);
      StartFresh(cfg);
    } else {
      OracleIsExact(cfg, orig, rnd, env, k - 1);
      var w := Run(cfg, orig, rnd, env, k - 1);
      if w.failed == 0 {
        TestIsExact(cfg, orig, rnd, env, w);
        if k - 1 < cfg.simulated {
          NotYetReal(cfg, orig, rnd, env, k - 1);
        }
        if k - 1 >= cfg.simulated {
          CommandAnswered(cfg, orig, rnd, env, k - 1);
        }
        assert Run(cfg, orig, rnd, env, k).failed == 0 <==> CorrectAt(cfg, orig, rnd, env, k - 1);
      }
    }
  }

  lemma {:induction false} StartFresh(cfg: Config)
    ensures Start(cfg).failed == 0 && Start(cfg).sh.calls == 0
  {
  }

  /** On an ideal file system every reply is correct. */
  lemma {:induction false} HonestIsAnswered(cfg: Config, orig: seq<byte>, env: Env, sh: Shadow, act: Action)
    requires ShadowOk(cfg, sh) && |orig| == cfg.maxFileLen && ActionOk(cfg, sh, act) && Honest(env)
    ensures Answered(cfg, orig, env, sh, act)
  {
    hide RefByte, Mapped, EofClean, Wanted, Pow2, Floor;
    var page := cfg.PageSize();
    match act
    case MapReadBack(o, size) => HonestMapping(orig, env, sh, o, size, page);
    case MapStore(o, size) => HonestMapping(orig, env, sh, o, size, page);
    case _ =>
  }

  lemma {:induction false} HonestMapping(orig: seq<byte>, env: Env, sh: Shadow, o: nat, size: nat, page: nat)
    requires Honest(env) && page > 0 && sh.size <= |orig| && o + size <= sh.size
    ensures var m := Mapped(env, sh.calls, Wanted(orig, sh.log, 0, sh.size), o, size, page);
      m[o % page..o % page + size] == Wanted(orig, sh.log, o, size) && EofClean(m, o, size, sh.size, page)
  {
    hide RefByte, Honest, Mapped;
    var f := Wanted(orig, sh.log, 0, sh.size);
    var want := Wanted(orig, sh.log, o, size);
    var m := Mapped(env, sh.calls, f, o, size, page);
    HonestBytes(env, sh.calls, f, o, size, page);
    forall j | 0 <= j < size
      ensures m[o % page + j] == want[j]
    {
      assert f[o + j] == want[j];
    }
  }

  /** An honest mapping shows the file, and zeros beyond it. */
  lemma {:induction false} HonestBytes(env: Env, n: nat, f: File, o: nat, size: nat, page: nat)
    requires Honest(env) && page > 0
    ensures var m := Mapped(env, n, f, o, size, page);
      forall i :: 0 <= i < |m| ==> m[i] == if Floor(o, page) + i < |f| then f[Floor(o, page) + i] else 0
  {
  }

  /** Oracle soundness: on an ideal file system no run of any length ever fails, and after every real
      operation the file is what the log demands, although bytes above file_size in good_buf may be stale. */
  lemma {:induction false} OracleSoundness(cfg: Config, orig: seq<byte>, rnd: Stream, env: Env, k: nat)
    requires cfg.Ok() && |orig| == cfg.maxFileLen && Honest(env)
    ensures var w := Run(cfg, orig, rnd, env, k);
      && w.failed == 0 && w.sh.calls == k && Explains(cfg, orig, w.sh)
      && (k > cfg.simulated || cfg.simulated == 0 ==> w.file == Wanted(orig, w.sh.log, 0, w.sh.size))
  {
    hide Advance, Answered, CorrectAt, Run, Explains, Honest, Wanted;
    forall j: nat | j < k
      ensures CorrectAt(cfg, orig, rnd, env, j)
    {
      var a := Advance(cfg, orig, rnd, Run(cfg, orig, rnd, env, j).sh);
      HonestIsAnswered(cfg, orig, env, a.0, a.1);
      if j >= cfg.simulated {
        CommandAnswered(cfg, orig, rnd, env, j);
      } else {
        NotYetReal(cfg, orig, rnd, env, j);
      }
    }
    OracleIsExact(cfg, orig, rnd, env, k);
    WantedIsWhole(cfg, orig, Run(cfg, orig, rnd, env, k).sh);
  }

  // ----- how a run proceeds -----

  /** Every call of test appends one operation to the log, before any marks. */
  lemma {:induction false} AdvanceLogs(cfg: Config, orig: seq<byte>, rnd: Stream, sh: Shadow) returns (e: LogEntry)
    requires cfg.Ok() && ShadowOk(cfg, sh) && |orig| == cfg.maxFileLen
    ensures IsPrimary(e) && sh.log + [e] <= Advance(cfg, orig, rnd, sh).0.log
  {
    hide Execute, Decode;
    var d := Decode(cfg, rnd, sh.size, sh.pos);
    e := ExecuteLogs(cfg, orig, Begun(cfg, rnd, sh).(pos := d.1), d.0);
  }

  lemma {:induction false} ExecuteLogs(cfg: Config, orig: seq<byte>, sh: Shadow, c: Command) returns (e: LogEntry)
    requires cfg.Ok() && ShadowOk(cfg, sh) && |orig| == cfg.maxFileLen && CommandOk(cfg, sh.size, c)
    ensures IsPrimary(e) && sh.log + [e] <= Execute(cfg, orig, sh, c).0.log
  {
    hide Written, ZeroFill, Align;
    e := Execute(cfg, orig, sh, c).0.log[|sh.log|];
  }

  /** The log only grows, and no call is counted twice. */
  lemma {:induction false} LogGrows(cfg: Config, orig: seq<byte>, rnd: Stream, env: Env, j: nat, k: nat)
    requires cfg.Ok() && |orig| == cfg.maxFileLen && j <= k
    ensures var before, after := Run(cfg, orig, rnd, env, j).sh, Run(cfg, orig, rnd, env, k).sh;
      before.log <= after.log && before.calls <= after.calls <= before.calls + (k - j)
    decreases k
  {
    hide Advance, Applied, Prepared;
    if j == k {
    } else {
      LogGrows(cfg, orig, rnd, env, j, k - 1);
      var e := AdvanceLogs(cfg, orig, rnd, Run(cfg, orig, rnd, env, k - 1).sh);
    }
  }

  lemma {:induction false} CallsCounted(cfg: Config, orig: seq<byte>, rnd: Stream, env: Env, n: nat)
    requires cfg.Ok() && |orig| == cfg.maxFileLen
    ensures Run(cfg, orig, rnd, env, n).sh.calls <= n
    ensures Run(cfg, orig, rnd, env, n).failed == 0 ==> Run(cfg, orig, rnd, env, n + 1).sh.calls == n + 1
  {
    hide Advance, Applied, Prepared, Reached, CorrectAt;
    OracleIsExact(cfg, orig, rnd, env, 0);
    LogGrows(cfg, orig, rnd, env, 0, n);
    OracleIsExact(cfg, orig, rnd, env, n);
  }

  /** After a failed check nothing happens any more. */
  lemma {:induction false} StoppedStays(cfg: Config, orig: seq<byte>, rnd: Stream, env: Env, i: nat, k: nat)
    requires cfg.Ok() && |orig| == cfg.maxFileLen && i <= k
    requires i == k || Run(cfg, orig, rnd, env, i).failed != 0
    ensures Run(cfg, orig, rnd, env, k) == Run(cfg, orig, rnd, env, i)
  {
    if i == k {
    } else {
      StoppedStays(cfg, orig, rnd, env, i, k - 1);
    }
  }

  // ----- simulating a prefix of the run -----

  lemma {:induction false} AdvanceIgnoresSimulated(cfg: Config, orig: seq<byte>, rnd: Stream, sh: Shadow)
    requires cfg.Ok() && ShadowOk(cfg, sh) && |orig| == cfg.maxFileLen
    ensures Advance(cfg.(simulated := 0), orig, rnd, sh) == Advance(cfg, orig, rnd, sh)
  {
    hide Decode, Execute;
    DecodeIgnoresSimulated(cfg, rnd, sh.size, sh.pos);
    var d := Decode(cfg, rnd, sh.size, sh.pos);
    ExecuteIgnoresSimulated(cfg, orig, Begun(cfg, rnd, sh).(pos := d.1), d.0);
  }

  lemma {:induction false} DecodeIgnoresSimulated(cfg: Config, rnd: Stream, fileSize: nat, pos: nat)
    requires cfg.Ok() && fileSize <= cfg.maxFileLen
    ensures Decode(cfg.(simulated := 0), rnd, fileSize, pos) == Decode(cfg, rnd, fileSize, pos)
  {
    hide Range;
    RangeIgnoresSimulated(cfg, fileSize);
  }

  lemma {:induction false} RangeIgnoresSimulated(cfg: Config, fileSize: nat)
    requires cfg.Ok() && fileSize <= cfg.maxFileLen
    ensures forall op: nat, size: nat, draw: nat :: size <= cfg.maxOpLen ==>
      Range(cfg.(simulated := 0), fileSize, op, size, draw) == Range(cfg, fileSize, op, size, draw)
  {
  }

  lemma {:induction false} ExecuteIgnoresSimulated(cfg: Config, orig: seq<byte>, sh: Shadow, c: Command)
    requires cfg.Ok() && ShadowOk(cfg, sh) && |orig| == cfg.maxFileLen && CommandOk(cfg, sh.size, c)
    ensures Execute(cfg.(simulated := 0), orig, sh, c) == Execute(cfg, orig, sh, c)
  {
  }

  /** Two file systems reply alike to operation n. */
  ghost predicate Alike(skipped: Env, executed: Env, n: nat) {
    && (forall b :: skipped.read(n, b) == executed.read(n, b))
    && (forall i, b :: skipped.mem(n, i, b) == executed.mem(n, i, b))
    && (forall size :: skipped.stat(n, size) == executed.stat(n, size))
    && (forall size :: skipped.seek(n, size) == executed.seek(n, size))
  }

  lemma {:induction false} MappedAlike(skipped: Env, executed: Env, n: nat, f: File, offset: nat, size: nat, page: nat)
    requires page > 0 && Alike(skipped, executed, n)
    ensures Mapped(skipped, n, f, offset, size, page) == Mapped(executed, n, f, offset, size, page)
  {
    hide Floor, MMap;
  }

  /** After the simulated prefix the number of simulated operations plays no part any more. */
  lemma {:induction false} AppliedAlike(cfg: Config, skipped: Env, executed: Env, w: World, grew: bool, act: Action)
    requires ShadowOk(cfg, w.sh) && ActionOk(cfg, w.sh, act) && w.sh.calls > cfg.simulated
    requires Alike(skipped, executed, w.sh.calls)
    ensures ShadowOk(cfg.(simulated := 0), w.sh) && ActionOk(cfg.(simulated := 0), w.sh, act)
    ensures Applied(cfg.(simulated := 0), executed, w, grew, act) == Applied(cfg, skipped, w, grew, act)
  {
    hide PRead, PWrite, FTruncate, Mapped, EofClean, Compared, Pow2;
    forall f, offset, size
      ensures Mapped(skipped, w.sh.calls, f, offset, size, cfg.PageSize())
           == Mapped(executed, w.sh.calls, f, offset, size, cfg.PageSize())
    {
      MappedAlike(skipped, executed, w.sh.calls, f, offset, size, cfg.PageSize());
    }
  }

  /** One more operation of the run that simulated a prefix, and of the one that executed it. */
  lemma {:induction false} TestAlike(cfg: Config, orig: seq<byte>, rnd: Stream, skipped: Env, executed: Env, w: World, w': World)
    requires cfg.Ok() && ShadowOk(cfg, w.sh) && |orig| == cfg.maxFileLen && w.failed == 0
    requires w.sh.calls >= cfg.simulated && Prepared(cfg, w) == w' && Alike(skipped, executed, w.sh.calls + 1)
    ensures ShadowOk(cfg.(simulated := 0), w'.sh)
    ensures Test(cfg, orig, rnd, skipped, w) == Test(cfg.(simulated := 0), orig, rnd, executed, w')
  {
    hide Advance, Applied, WithImage, Alike;
    AdvanceIgnoresSimulated(cfg, orig, rnd, w.sh);
    var a := Advance(cfg, orig, rnd, w.sh);
    AppliedAlike(cfg, skipped, executed, w'.(sh := a.0), a.0.size > w.sh.size, a.1);
  }

  /** badoff is only set by a check that fails. */
  lemma {:induction false} BadoffKept(cfg: Config, orig: seq<byte>, rnd: Stream, env: Env, k: nat)
    requires cfg.Ok() && |orig| == cfg.maxFileLen && Run(cfg, orig, rnd, env, k).failed == 0
    ensures Run(cfg, orig, rnd, env, k).badoff == -1
  {
    hide Advance, PRead, PWrite, FTruncate, Mapped, EofClean, LastDifference;
    if k == 0 {
    } else {
      BadoffKept(cfg, orig, rnd, env, k - 1);
    }
  }

  /** Whatever the two file systems reply, and whether or not a prefix is only simulated: as long as no check
      stops either run, both have the same shadow image, log and position in the random stream. */
  lemma {:induction false} SameShadow(cfg: Config, orig: seq<byte>, rnd: Stream, skipped: Env, executed: Env, k: nat)
    requires cfg.Ok() && |orig| == cfg.maxFileLen
    requires Run(cfg, orig, rnd, skipped, k).failed == 0 && Run(cfg.(simulated := 0), orig, rnd, executed, k).failed == 0
    ensures Run(cfg, orig, rnd, skipped, k).sh == Run(cfg.(simulated := 0), orig, rnd, executed, k).sh
  {
    hide Advance, Applied, Prepared, Start;
    if k == 0 {
      StartIgnoresSimulated(cfg);
    } else {
      var w := Run(cfg, orig, rnd, skipped, k - 1);
      SameShadow(cfg, orig, rnd, skipped, executed, k - 1);
      AdvanceIgnoresSimulated(cfg, orig, rnd, w.sh);
    }
  }

  lemma {:induction false} StartIgnoresSimulated(cfg: Config)
    ensures Start(cfg.(simulated := 0)) == Start(cfg)
  {
  }

  /** During the simulated prefix no check stops the run. */
  lemma {:induction false} PrefixPasses(cfg: Config, orig: seq<byte>, rnd: Stream, env: Env, k: nat)
    requires cfg.Ok() && |orig| == cfg.maxFileLen && k <= cfg.simulated
    ensures Run(cfg, orig, rnd, env, k).failed == 0
  {
    hide Run, Reached, Answered;
    OracleIsExact(cfg, orig, rnd, env, k);
  }

  /** Two runs that no check has stopped are in the same state, once the image has been written out. */
  lemma {:induction false} PassingStates(cfg: Config, orig: seq<byte>, rnd: Stream, skipped: Env, executed: Env, k: nat)
    requires cfg.Ok() && |orig| == cfg.maxFileLen && k >= cfg.simulated
    requires Run(cfg, orig, rnd, skipped, k).failed == 0 && Run(cfg.(simulated := 0), orig, rnd, executed, k).failed == 0
    ensures Prepared(cfg, Run(cfg, orig, rnd, skipped, k)) == Run(cfg.(simulated := 0), orig, rnd, executed, k)
  {
    hide Run, Prepared, Explains, Image, CorrectAt;
    SameShadow(cfg, orig, rnd, skipped, executed, k);
    OracleIsExact(cfg, orig, rnd, skipped, k);
    OracleIsExact(cfg.(simulated := 0), orig, rnd, executed, k);
    BadoffKept(cfg, orig, rnd, skipped, k);
    BadoffKept(cfg.(simulated := 0), orig, rnd, executed, k);
    PreparedIsImage(cfg, Run(cfg, orig, rnd, skipped, k));
  }

  /** Writing the image out after the simulated prefix gives the state of a run that executed the prefix,
      whatever the two file systems reply, exactly when no check stopped that run there. */
  lemma {:induction false} PrefixSkipped(cfg: Config, orig: seq<byte>, rnd: Stream, skipped: Env, executed: Env)
    requires cfg.Ok() && |orig| == cfg.maxFileLen
    ensures var w' := Run(cfg.(simulated := 0), orig, rnd, executed, cfg.simulated);
      Prepared(cfg, Run(cfg, orig, rnd, skipped, cfg.simulated)) == w' <==> w'.failed == 0
  {
    hide Run, Prepared;
    PrefixPasses(cfg, orig, rnd, skipped, cfg.simulated);
    if Run(cfg.(simulated := 0), orig, rnd, executed, cfg.simulated).failed == 0 {
      PassingStates(cfg, orig, rnd, skipped, executed, cfg.simulated);
    }
  }

  /** Beyond the prefix, and whatever the two file systems reply: as long as no check has stopped the run that
      simulated the prefix, it is in the state of the run that executed it, exactly when that one was not
      stopped either. */
  lemma {:induction false} PassingRunsAgree(cfg: Config, orig: seq<byte>, rnd: Stream, skipped: Env, executed: Env, k: nat)
    requires cfg.Ok() && |orig| == cfg.maxFileLen && k > cfg.simulated
    requires Run(cfg, orig, rnd, skipped, k).failed == 0
    ensures Run(cfg, orig, rnd, skipped, k) == Run(cfg.(simulated := 0), orig, rnd, executed, k)
      <==> Run(cfg.(simulated := 0), orig, rnd, executed, k).failed == 0
  {
    hide Run, Explains, FileOk, CorrectAt, WithImage;
    if Run(cfg.(simulated := 0), orig, rnd, executed, k).failed == 0 {
      OracleIsExact(cfg, orig, rnd, skipped, k);
      PassingStates(cfg, orig, rnd, skipped, executed, k);
    }
  }

  /** A stopped run is in the state of the call that stopped it, the last one counted. */
  lemma {:induction false} StoppedAt(cfg: Config, orig: seq<byte>, rnd: Stream, env: Env, k: nat)
    requires cfg.Ok() && |orig| == cfg.maxFileLen && Run(cfg, orig, rnd, env, k).failed != 0
    ensures var w := Run(cfg, orig, rnd, env, k);
      var j := w.sh.calls;
      && cfg.simulated < j <= k && w.file == Image(w.sh)
      && Run(cfg, orig, rnd, env, j - 1).failed == 0
      && w.sh == Advance(cfg, orig, rnd, Run(cfg, orig, rnd, env, j - 1).sh).0
  {
    hide Advance, Applied, Prepared, Explains, Answered, Start, Image;
    if k == 0 {
      StartFresh(cfg);
      assert false;
    } else {
      var w := Run(cfg, orig, rnd, env, k - 1);
      if w.failed == 0 {
        OracleIsExact(cfg, orig, rnd, env, k - 1);
        TestIsExact(cfg, orig, rnd, env, w);
        CallsCounted(cfg, orig, rnd, env, k - 1);
      } else {
        StoppedAt(cfg, orig, rnd, env, k - 1);
      }
    }
  }

  /** Beyond the prefix, and whatever the two file systems reply: the run that simulated the prefix and the
      one that executed it are in the same state exactly when the checks have treated them alike, that is,
      neither was stopped, or both were by the same operation with the same exit status and badoff. */
  lemma {:induction false} RunsPartAtChecks(cfg: Config, orig: seq<byte>, rnd: Stream, skipped: Env, executed: Env, k: nat)
    requires cfg.Ok() && |orig| == cfg.maxFileLen && k > cfg.simulated
    ensures var w, w' := Run(cfg, orig, rnd, skipped, k), Run(cfg.(simulated := 0), orig, rnd, executed, k);
      w == w' <==> w.failed == w'.failed && w.badoff == w'.badoff && w.sh.calls == w'.sh.calls
  {
    hide Run, Advance, Explains, FileOk, CorrectAt, Image;
    var w, w' := Run(cfg, orig, rnd, skipped, k), Run(cfg.(simulated := 0), orig, rnd, executed, k);
    if w.failed == w'.failed && w.badoff == w'.badoff && w.sh.calls == w'.sh.calls {
      if w.failed == 0 {
        PassingRunsAgree(cfg, orig, rnd, skipped, executed, k);
      } else {
        StoppedAt(cfg, orig, rnd, skipped, k);
        StoppedAt(cfg.(simulated := 0), orig, rnd, executed, k);
        SameShadow(cfg, orig, rnd, skipped, executed, w.sh.calls - 1);
        AdvanceIgnoresSimulated(cfg, orig, rnd, Run(cfg, orig, rnd, skipped, w.sh.calls - 1).sh);
      }
    }
  }

  /** When the executed prefix passes its checks, and from then on the file systems reply alike. */
  lemma {:induction false} SkippedAlike(cfg: Config, orig: seq<byte>, rnd: Stream, skipped: Env, executed: Env, k: nat)
    requires cfg.Ok() && |orig| == cfg.maxFileLen && k > cfg.simulated
    requires forall n: nat :: n > cfg.simulated ==> Alike(skipped, executed, n)
    requires Run(cfg.(simulated := 0), orig, rnd, executed, cfg.simulated).failed == 0
    ensures Run(cfg, orig, rnd, skipped, k) == Run(cfg.(simulated := 0), orig, rnd, executed, k)
  {
    hide Advance, Applied, Reached, Answered, Start, Test, CorrectAt, WithImage, Alike;
    var w := Run(cfg, orig, rnd, skipped, k - 1);
    OracleIsExact(cfg, orig, rnd, skipped, k - 1);
    if k - 1 == cfg.simulated {
      PrefixSkipped(cfg, orig, rnd, skipped, executed);
      PrefixPasses(cfg, orig, rnd, skipped, k - 1);
    } else {
      SkippedAlike(cfg, orig, rnd, skipped, executed, k - 1);
    }
    if w.failed == 0 {
      TestAlike(cfg, orig, rnd, skipped, executed, w, Run(cfg.(simulated := 0), orig, rnd, executed, k - 1));
    } else {
      StoppedStays(cfg, orig, rnd, skipped, k - 1, k);
      StoppedStays(cfg.(simulated := 0), orig, rnd, executed, k - 1, k);
    }
  }

  /** Replay-skip equivalence. The two runs may see different replies during the prefix; when they see the
      same from then on, simulating the prefix leads to the same run, the operation that fails included (the
      same shadow, log, file, badoff and exit status), exactly when executing the prefix passes all checks. */
  lemma {:induction false} ReplaySkip(cfg: Config, orig: seq<byte>, rnd: Stream, skipped: Env, executed: Env, k: nat)
    requires cfg.Ok() && |orig| == cfg.maxFileLen && k > cfg.simulated
    requires forall n: nat :: n > cfg.simulated ==> Alike(skipped, executed, n)
    ensures Run(cfg, orig, rnd, skipped, k) == Run(cfg.(simulated := 0), orig, rnd, executed, k)
      <==> Run(cfg.(simulated := 0), orig, rnd, executed, cfg.simulated).failed == 0
  {
    hide Run, Advance, Applied, Prepared, Reached, CorrectAt, Alike;
    var n := cfg.simulated;
    if Run(cfg.(simulated := 0), orig, rnd, executed, n).failed == 0 {
      SkippedAlike(cfg, orig, rnd, skipped, executed, k);
    } else {
      StoppedStays(cfg.(simulated := 0), orig, rnd, executed, n, k);
      CallsCounted(cfg.(simulated := 0), orig, rnd, executed, n);
      PrefixPasses(cfg, orig, rnd, skipped, n);
      CallsCounted(cfg, orig, rnd, skipped, n);
      LogGrows(cfg, orig, rnd, skipped, n + 1, k);
    }
  }

  /** On ideal file systems every prefix can be skipped. */
  lemma {:induction false} ReplaySkipHonest(cfg: Config, orig: seq<byte>, rnd: Stream, skipped: Env, executed: Env, k: nat)
    requires cfg.Ok() && |orig| == cfg.maxFileLen && Honest(skipped) && Honest(executed)
    ensures var w, w' := Run(cfg, orig, rnd, skipped, k), Run(cfg.(simulated := 0), orig, rnd, executed, k);
      w.sh == w'.sh && (k >= cfg.simulated ==> Prepared(cfg, w) == w') && (k > cfg.simulated ==> w == w')
  {
    hide Run, Prepared, Explains, Honest, Wanted;
    OracleSoundness(cfg, orig, rnd, skipped, k);
    OracleSoundness(cfg.(simulated := 0), orig, rnd, executed, k);
    SameShadow(cfg, orig, rnd, skipped, executed, k);
    if k >= cfg.simulated {
      PassingStates(cfg, orig, rnd, skipped, executed, k);
    }
    if k > cfg.simulated {
      PassingRunsAgree(cfg, orig, rnd, skipped, executed, k);
    }
  }

  // ----- operation numbers -----

  /** As long as more than j calls get counted, no check stops the first j. */
  lemma {:induction false} StillRunning(cfg: Config, orig: seq<byte>, rnd: Stream, env: Env, j: nat, k: nat)
    requires cfg.Ok() && |orig| == cfg.maxFileLen && j < Run(cfg, orig, rnd, env, k).sh.calls
    ensures j < k && Run(cfg, orig, rnd, env, j).failed == 0 && Run(cfg, orig, rnd, env, j).sh.calls == j
  {
    hide Run, Test, Reached, CorrectAt;
    assert Run(cfg, orig, rnd, env, 0).sh.calls == 0 by {
      OracleIsExact(cfg, orig, rnd, env, 0);
      StartFresh(cfg);
    }
    LogGrows(cfg, orig, rnd, env, 0, k);
    LogGrows(cfg, orig, rnd, env, 0, j);
    OracleIsExact(cfg, orig, rnd, env, j);
    if Run(cfg, orig, rnd, env, j).failed != 0 {
      StoppedStays(cfg, orig, rnd, env, j, k);
      assert false;
    }
  }

  /** In every reachable state, that of a run stopped by a check included, operation number j + 1 is the
      entry that call j + 1 of test appended first, and counting the operations of the log up to it gives
      j + 1, the value of testcalls in that call. */
  lemma {:induction false} OperationNumbers(cfg: Config, orig: seq<byte>, rnd: Stream, env: Env, j: nat, k: nat)
    requires cfg.Ok() && |orig| == cfg.maxFileLen && j < Run(cfg, orig, rnd, env, k).sh.calls
    ensures var log := Run(cfg, orig, rnd, env, k).sh.log;
      var at := |Run(cfg, orig, rnd, env, j).sh.log|;
      && j < k && Run(cfg, orig, rnd, env, j).sh.calls == j && Run(cfg, orig, rnd, env, j + 1).sh.calls == j + 1
      && at < |Run(cfg, orig, rnd, env, j + 1).sh.log| <= |log|
      && IsPrimary(log[at]) && Primaries(log[..at + 1]) == j + 1
  {
    hide Advance, Applied, Prepared, Explains, Primaries;
    StillRunning(cfg, orig, rnd, env, j, k);
    LogGrows(cfg, orig, rnd, env, j + 1, k);
    var w := Run(cfg, orig, rnd, env, j);
    ByteProvenance(cfg, orig, rnd, env, j);
    CountedSoFar(cfg, orig, w.sh);
    var e := AdvanceLogs(cfg, orig, rnd, w.sh);
    OneMore(0, w.sh.log, e);
    assert Run(cfg, orig, rnd, env, k).sh.log[..|w.sh.log| + 1] == w.sh.log + [e];
  }

  /** Entry i of the log is the one that call n of test, the n-th to be counted, appended first. */
  ghost predicate LoggedBy(cfg: Config, orig: seq<byte>, rnd: Stream, env: Env, i: nat, n: nat)
    requires cfg.Ok() && |orig| == cfg.maxFileLen
  {
    && n > 0
    && var before, after := Run(cfg, orig, rnd, env, n - 1).sh, Run(cfg, orig, rnd, env, n).sh;
      before.calls == n - 1 && after.calls == n && i == |before.log| < |after.log|
  }

  /** Entry i of the log of a reachable state is an operation with n operations up to it exactly when a call
      n, counted by then, appended it first. */
  lemma {:induction false} EntryOfCall(cfg: Config, orig: seq<byte>, rnd: Stream, env: Env, k: nat, i: nat, n: nat)
    requires cfg.Ok() && |orig| == cfg.maxFileLen && i < |Run(cfg, orig, rnd, env, k).sh.log|
    ensures var sh := Run(cfg, orig, rnd, env, k).sh;
      IsPrimary(sh.log[i]) && Primaries(sh.log[..i + 1]) == n
      <==> n <= sh.calls && LoggedBy(cfg, orig, rnd, env, i, n)
  {
    hide Run, Test, Explains, Primaries;
    var sh := Run(cfg, orig, rnd, env, k).sh;
    var log := sh.log;
    if n <= sh.calls && LoggedBy(cfg, orig, rnd, env, i, n) {
      OperationNumbers(cfg, orig, rnd, env, n - 1, k);
    } else if IsPrimary(log[i]) && Primaries(log[..i + 1]) == n {
      ByteProvenance(cfg, orig, rnd, env, k);
      CountedSoFar(cfg, orig, sh);
      PrimariesOrder(log, i, |log| - 1);
      assert log[..|log|] == log;
      PrimariesOrder(log, i, i);
      OperationNumbers(cfg, orig, rnd, env, n - 1, k);
      var at := |Run(cfg, orig, rnd, env, n - 1).sh.log|;
      LogGrows(cfg, orig, rnd, env, n, k);
      var e := AdvanceLogs(cfg, orig, rnd, Run(cfg, orig, rnd, env, n - 1).sh);
      PrimariesOrder(log, i, at);
      PrimariesOrder(log, at, i);
    }
  }

  /** An operation counts more entries than what precedes it. */
  lemma {:induction false} PrimariesOrder(log: seq<LogEntry>, i: int, j: int)
    requires 0 <= i < |log| && 0 <= j < |log|
    ensures IsPrimary(log[i]) ==> Primaries(log[..i + 1]) > 0
    ensures i < j && IsPrimary(log[j]) ==> Primaries(log[..i + 1]) < Primaries(log[..j + 1])
    ensures i <= j ==> Primaries(log[..i + 1]) <= Primaries(log[..j + 1])
  {
    hide Primaries;
    assert log[..i + 1] == log[..i] + [log[i]];
    OneMore(0, log[..i], log[i]);
    if i < j {
      assert log[..j] == log[..i + 1] + log[i + 1..j];
      PrimariesSplit(log[..i + 1], log[i + 1..j]);
      assert log[..j + 1] == log[..j] + [log[j]];
      OneMore(0, log[..j], log[j]);
    }
  }

  lemma {:induction false} CountedSoFar(cfg: Config, orig: seq<byte>, sh: Shadow)
    requires Explains(cfg, orig, sh)
    ensures Primaries(sh.log) == sh.calls
  {
  }
}
