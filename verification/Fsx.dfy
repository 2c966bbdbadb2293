/** fsx.c as it is written: globals and buffers updated in place by every operation. Each method is proved
    to do what the state machine of FsxModel does. */
module Fsx {
  import opened PageMask
  import opened FsxModel
  import opened FsxShadow
  import opened FsxMeaning
  import opened FsxOracle
  import opened FsxLog

  class Tester {
    const cfg: Config
    const orig: seq<byte>      // original_buf, filled once
    const rnd: Stream
    const env: Env
    const good: array<byte>    // good_buf
    const temp: array<byte>    // temp_buf
    const log: RingLog

    var fileSize: nat
    var testcalls: nat
    var pos: nat               // how far random() has got
    var closeopen: bool
    var invl: bool
    var badoff: int
    var file: File             // the tested file
    var failed: int            // exit status of report_failure, 0 while running

    ghost predicate Valid()
      reads this, good, log, log.oplog
    {
      && cfg.Ok() && |orig| == cfg.maxFileLen && good.Length == cfg.maxFileLen && temp.Length == cfg.maxOpLen
      && good != temp && fileSize <= cfg.maxFileLen && log.Valid()
    }

    ghost function Sh(): Shadow
      reads this, good, log
    {
      Shadow(good[..], fileSize, testcalls, log.all, pos, closeopen, invl)
    }

    /** The state of the model. */
    ghost function View(): World
      reads this, good, log
    {
      World(Sh(), file, badoff, failed)
    }

    /** main: buffers zeroed, file empty, or in lite mode zeroed in place. */
    constructor (cfg: Config, orig: seq<byte>, rnd: Stream, env: Env)
      requires cfg.Ok() && |orig| == cfg.maxFileLen
      ensures this.cfg == cfg && this.orig == orig && this.rnd == rnd && this.env == env
      ensures Valid() && View() == Start(cfg)
      ensures (forall i :: 0 <= i < good.Length ==> good[i] == 0) && log.all == []
      ensures fileSize == |file| == (if cfg.lite then cfg.maxFileLen else 0) && forall i :: 0 <= i < |file| ==> file[i] == 0
      ensures testcalls == 0 && pos == cfg.maxFileLen && !closeopen && !invl && badoff == -1 && failed == 0
      ensures fresh(good) && fresh(temp) && fresh(log) && fresh(log.oplog)
    {
      this.cfg, this.orig, this.rnd, this.env := cfg, orig, rnd, env;
      good := new byte[cfg.maxFileLen](_ => 0);
      temp := new byte[cfg.maxOpLen](_ => 0);
      log := new RingLog();
      fileSize := if cfg.lite then cfg.maxFileLen else 0;
      testcalls, pos, closeopen, invl, badoff, failed := 0, cfg.maxFileLen, false, false, -1, 0;
      file := if cfg.lite then seq(cfg.maxFileLen, i => 0 as byte) else [];
      new;
      assert good[..] == seq(cfg.maxFileLen, i => 0 as byte);
    }

    method Random() returns (r: nat)
      modifies this`pos
      ensures r == rnd(old(pos)) && pos == old(pos) + 1
    {
      r := rnd(pos);
      pos := pos + 1;
    }

    method Log4(operation: int, arg0: int, arg1: int, arg2: int)
      requires Valid()
      modifies log, log.oplog
      ensures Valid()
      ensures log.all == Logged(old(Sh()), LogEntry(operation, arg0, arg1, arg2))
    {
      log.DoLog4(LogEntry(operation, arg0, arg1, arg2));
      if closeopen {
        log.DoLog4(LogEntry(OP_CLOSEOPEN, 0, 0, 0));
      }
      if invl {
        log.DoLog4(LogEntry(OP_INVALIDATE, 0, 0, 0));
      }
    }

    method GenerateData(offset: nat, size: nat)
      requires Valid() && offset + size <= good.Length
      modifies good
      ensures good[..] == GenData(orig, old(good[..]), testcalls, offset, size)
    {
      for i := offset to offset + size
        invariant forall j :: 0 <= j < good.Length ==>
          good[j] == if offset <= j < i then GenByte(orig, testcalls, j) else old(good[j])
      {
        good[i] := testcalls % 256;
        if i % 2 != 0 {
          var sum: int := good[i] + orig[i] as int;
          good[i] := sum % 256;
        }
      }
    }

    /** memset(good_buf + from, 0, to - from). */
    method ZeroGood(from: nat, to: nat)
      requires from <= to <= good.Length
      modifies good
      ensures good[..] == ZeroFill(old(good[..]), from, to)
    {
      for i := from to to
        invariant forall j :: 0 <= j < good.Length ==> good[j] == if from <= j < i then 0 else old(good[j])
      {
        good[i] := 0;
      }
    }

    /** Fill temp_buf with what was read. */
    method Fill(data: seq<byte>)
      requires |data| <= temp.Length
      modifies temp
      ensures temp[..|data|] == data
    {
      for i := 0 to |data|
        invariant temp[..i] == data[..i]
      {
        temp[i] := data[i];
      }
    }

    /** short_at. */
    method Short(buf: array<byte>, i: nat) returns (p: Peek)
      requires i < buf.Length
      ensures p == ShortAt(buf[..], i)
    {
      return if i + 1 < buf.Length then Inside(0x100 * (buf[i] as int) + buf[i + 1]) else Outside;
    }

    /** The scan of check_buffers: counts the differing bytes, leaves the last of their offsets, and says what
        is printed for the first. */
    method ScanDifferences(offset: nat, size: nat) returns (n: nat, first: Mismatch)
      requires size <= temp.Length && offset + size <= good.Length
      modifies this`badoff
      ensures n == Differences(good[offset..offset + size], temp[..size], size)
      ensures var last := LastDifference(good[offset..offset + size], temp[..size], size);
        badoff == if last < 0 then old(badoff) else offset + last
      ensures var k := FirstDifference(good[offset..offset + size], temp[..size], size);
        first == if k < size then MismatchAt(good[..], temp[..], offset, k) else NoMismatch
    {
      hide ShortAt;
      ghost var want, got := good[offset..offset + size], temp[..size];
      n, first := 0, NoMismatch;
      var i: nat := 0;
      while i < size
        invariant i <= size
        invariant n == Differences(want, got, i) && (n == 0 <==> FirstDifference(want, got, i) == i)
        invariant badoff == if LastDifference(want, got, i) < 0 then old(badoff) else offset + LastDifference(want, got, i)
        invariant var k := FirstDifference(want, got, i);
          first == if k < i then MismatchAt(good[..], temp[..], offset, k) else NoMismatch
      {
        assert want[i] == good[offset + i] && got[i] == temp[i];
        var c, t := good[offset + i], temp[i];
        if c != t {
          if n == 0 {
            first := FirstMismatch(offset, i);
          }
          n := n + 1;
          badoff := offset + i;
        }
        i := i + 1;
      }
    }

    /** What is printed for the first bad byte. */
    method FirstMismatch(offset: nat, i: nat) returns (m: Mismatch)
      requires i < temp.Length && offset + i < good.Length
      ensures m == MismatchAt(good[..], temp[..], offset, i)
    {
      hide ShortAt;
      var bad := Short(temp, i);
      var wanted := Short(good, offset + i);
      var j := if (offset + i) % 2 == 1 then i + 1 else i;
      return Mismatch(offset + i, wanted, bad, if j < temp.Length then Inside(temp[j]) else Outside);
    }

    /** check_buffers. When the buffers differ, n is the exact number of differing bytes, so it is not 0,
        badoff the greatest differing offset, and first what is printed for the least. */
    method CheckBuffers(offset: nat, size: nat) returns (n: nat, first: Mismatch)
      requires size <= temp.Length && offset + size <= good.Length
      modifies this`badoff, this`failed
      ensures View() == Compared(old(View()), offset, temp[..size])
      ensures n == Differences(good[offset..offset + size], temp[..size], size)
      ensures n > 0 <==> good[offset..offset + size] != temp[..size]
      ensures var k := FirstDifference(good[offset..offset + size], temp[..size], size);
        first == if k < size then MismatchAt(good[..], temp[..], offset, k) else NoMismatch
    {
      hide Differences, LastDifference, FirstDifference, MismatchAt;
      ghost var want, got := good[offset..offset + size], temp[..size];
      DifferencesFound(want, got, size);
      assert want[..size] == want && got[..size] == got;
      n, first := 0, NoMismatch;
      if good[offset..offset + size] != temp[..size] {
        n, first := ScanDifferences(offset, size);
        failed := 110;
      }
      assert good[..][offset..offset + size] == want;
    }

    /** check_size. */
    method CheckSize()
      modifies this`failed
      requires failed == 0
      ensures View() == if cfg.sizeChecks then SizeChecked(cfg, env, old(View())) else old(View())
      ensures failed == if cfg.sizeChecks && (env.stat(testcalls, |file|) != fileSize || env.seek(testcalls, |file|) != fileSize) then 120 else 0
    {
      if cfg.sizeChecks {
        var stSize := env.stat(testcalls, |file|);
        var sizeBySeek := env.seek(testcalls, |file|);
        if fileSize != stSize || fileSize != sizeBySeek {
          failed := 120;
        }
      }
    }

    /** check_eofpage on a mapping at address p: the scanned addresses all lie in mapped pages. */
    method CheckEofPage(offset: nat, p: nat, size: nat, m: seq<byte>) returns (clean: bool)
      requires size > 0 && offset + size <= fileSize && p % cfg.PageSize() == 0
      requires |m| == Floor(offset % cfg.PageSize() + size + cfg.PageSize() - 1, cfg.PageSize())
      ensures clean <==> EofClean(m, offset, size, fileSize, cfg.PageSize())
    {
      hide And, AndNot, Pow2, Floor;
      var pageSize := cfg.PageSize();
      var mask := pageSize - 1;
      MaskIsMod(offset, cfg.pageBits);
      EofPage(p, offset, size, fileSize, cfg.pageBits);
      if offset + size <= AndNot(fileSize, mask) {
        return true;
      }
      var lastPage := AndNot(p + And(offset, mask) + size, mask);
      ghost var base := Floor(offset, pageSize);
      ghost var end := Floor(fileSize, pageSize) + pageSize;
      var a := lastPage + And(fileSize, mask);
      while a < lastPage + pageSize
        invariant p + (fileSize - base) <= a <= p + (end - base)
        invariant forall i :: 0 <= i < |m| && fileSize <= base + i < base + (a - p) ==> m[i] == 0
      {
        if m[a - p] != 0 {
          return false;
        }
        a := a + 1;
      }
      return true;
    }

    /** An operation that turns out to be nothing, and a read that is only simulated, only log. */
    lemma {:induction false} ReadLogged(w: World, offset: nat, size: nat, mapped: bool)
      requires cfg.Ok() && ShadowOk(cfg, w.sh) && |orig| == cfg.maxFileLen
      requires size <= cfg.maxOpLen
      ensures var c := if mapped then MapReadCmd(offset, size) else ReadCmd(offset, size);
        var a := ExecuteRead(cfg, w.sh, offset, size, mapped);
        Did(cfg, orig, env, w, c) == Operated(cfg, env, w.(sh := a.0), false, a.1)
    {
    }

    method DoRead(offset': nat, size: nat)
      requires Valid() && failed == 0 && CommandOk(cfg, fileSize, ReadCmd(offset', size))
      modifies this`badoff, this`failed, temp, log, log.oplog
      ensures Valid() && View() == Did(cfg, orig, env, old(View()), ReadCmd(offset', size))
      ensures Reads(cfg, env, old(View()), View(), offset', size)
    {
      hide Logged, Did, ZeroFill, GenData, Reads;
      DidRead(cfg, orig, env, View(), offset', size);
      ReadLogged(View(), offset', size, false);
      var offset := offset' - offset' % cfg.readBdy;
      if size == 0 {
        Log4(OP_SKIPPED, OP_READ, offset, size);
        return;
      }
      if size + offset > fileSize {
        Log4(OP_SKIPPED, OP_READ, offset, size);
        return;
      }
      Log4(OP_READ, offset, size, 0);
      if testcalls <= cfg.simulated {
        return;
      }
      var data := env.read(testcalls, PRead(file, offset, size));
      if |data| != size {
        failed := 141;
        return;
      }
      Fill(data);
      var n, first := CheckBuffers(offset, size);
    }

    method DoMapRead(offset': nat, size: nat)
      requires Valid() && failed == 0 && CommandOk(cfg, fileSize, MapReadCmd(offset', size))
      modifies this`badoff, this`failed, temp, log, log.oplog
      ensures Valid() && View() == Did(cfg, orig, env, old(View()), MapReadCmd(offset', size))
      ensures MapReads(cfg, env, old(View()), View(), offset', size)
    {
      hide Logged, Did, Mapped, EofClean, Compared, MapReads;
      DidMapRead(cfg, orig, env, View(), offset', size);
      ReadLogged(View(), offset', size, true);
      var offset := offset' - offset' % cfg.readBdy;
      if size == 0 {
        Log4(OP_SKIPPED, OP_MAPREAD, offset, size);
        return;
      }
      if size + offset > fileSize {
        Log4(OP_SKIPPED, OP_MAPREAD, offset, size);
        return;
      }
      Log4(OP_MAPREAD, offset, size, 0);
      if testcalls <= cfg.simulated {
        return;
      }
      MapReadFile(offset, size);
    }

    /** The part of domapread that touches the mapping. */
    method MapReadFile(offset: nat, size: nat)
      requires Valid() && failed == 0 && 0 < size <= cfg.maxOpLen && offset + size <= fileSize
      modifies this`badoff, this`failed, temp
      ensures Valid() && View() == Performed(cfg, env, old(View()), false, MapReadBack(offset, size))
    {
      hide EofClean, Floor, Mapped, And, Pow2, Performed, Compared;
      MapReadPerformed(cfg, env, View(), false, offset, size);
      var page := cfg.PageSize();
      var pgOffset := And(offset, page - 1);
      MaskIsMod(offset, cfg.pageBits);
      var m := Mapped(env, testcalls, file, offset, size, page);
      Fill(m[pgOffset..pgOffset + size]);
      PageAligned(env.page(testcalls), page);
      var clean := CheckEofPage(offset, env.page(testcalls) * page, size, m);
      if !clean {
        failed := 205;
        return;
      }
      var n, first := CheckBuffers(offset, size);
    }

    /** The part of dowrite and domapwrite up to the file: data generated, a hole zeroed, the file size
        raised. In lite mode growing is an error. */
    method StoreGood(offset: nat, size: nat, liteStatus: int)
      requires Valid() && failed == 0 && 0 < size && offset + size <= cfg.maxFileLen && liteStatus != 0
      modifies this`fileSize, this`failed, good
      ensures Valid() && Sh() == Written(orig, old(Sh()), offset, size)
      ensures failed == if cfg.lite && fileSize > old(fileSize) then liteStatus else 0
    {
      hide GenByte;
      GenerateData(offset, size);
      if fileSize < offset + size {
        if fileSize < offset {
          ZeroGood(fileSize, offset);
        } else {
          assert good[..] == ZeroFill(good[..], fileSize, offset);
        }
        fileSize := offset + size;
        if cfg.lite {
          failed := liteStatus;
        }
      }
    }

    lemma {:induction false} WriteLogged(w: World, offset: nat, size: nat, mapped: bool)
      requires cfg.Ok() && ShadowOk(cfg, w.sh) && |orig| == cfg.maxFileLen
      requires size <= cfg.maxOpLen && offset + size <= cfg.maxFileLen
      ensures var c := if mapped then MapWriteCmd(offset, size) else WriteCmd(offset, size);
        var a := ExecuteWrite(cfg, orig, w.sh, offset, size, mapped);
        Did(cfg, orig, env, w, c) == Operated(cfg, env, w.(sh := a.0), a.0.size > w.sh.size, a.1)
    {
      hide Operated, ExecuteWrite;
    }

    method DoWrite(offset': nat, size: nat)
      requires Valid() && failed == 0 && CommandOk(cfg, fileSize, WriteCmd(offset', size))
      modifies this`fileSize, this`failed, this`file, good, log, log.oplog
      ensures Valid() && View() == Did(cfg, orig, env, old(View()), WriteCmd(offset', size))
      ensures WritesFile(cfg, orig, env, old(View()), View(), offset', size)
    {
      hide Logged, Did, Written, PWrite, WritesFile;
      DidWrite(cfg, orig, env, View(), offset', size);
      WriteLogged(View(), offset', size, false);
      var offset := offset' - offset' % cfg.writeBdy;
      if size == 0 {
        Log4(OP_SKIPPED, OP_WRITE, offset, size);
        return;
      }
      Log4(OP_WRITE, offset, size, fileSize);
      StoreGood(offset, size, 149);
      if failed != 0 {
        return;
      }
      if testcalls <= cfg.simulated {
        return;
      }
      file := PWrite(file, offset, good[offset..offset + size]);
      assert good[..][offset..offset + size] == good[offset..offset + size];
    }

    method DoMapWrite(offset': nat, size: nat)
      requires Valid() && failed == 0 && CommandOk(cfg, fileSize, MapWriteCmd(offset', size))
      modifies this`fileSize, this`failed, this`file, good, log, log.oplog
      ensures Valid() && View() == Did(cfg, orig, env, old(View()), MapWriteCmd(offset', size))
      ensures MapWritesFile(cfg, orig, env, old(View()), View(), offset', size)
    {
      hide Logged, Did, Written, PWrite, Mapped, EofClean, MapWritesFile;
      DidMapWrite(cfg, orig, env, View(), offset', size);
      WriteLogged(View(), offset', size, true);
      var offset := offset' - offset' % cfg.writeBdy;
      if size == 0 {
        Log4(OP_SKIPPED, OP_MAPWRITE, offset, size);
        return;
      }
      var curFileSize := fileSize;
      Log4(OP_MAPWRITE, offset, size, 0);
      StoreGood(offset, size, 200);
      if failed != 0 {
        return;
      }
      if testcalls <= cfg.simulated {
        return;
      }
      MapStoreFile(offset, size, fileSize > curFileSize);
    }

    /** The part of domapwrite that touches the file. */
    method MapStoreFile(offset: nat, size: nat, grew: bool)
      requires Valid() && failed == 0 && 0 < size <= cfg.maxOpLen && offset + size <= fileSize
      modifies this`failed, this`file
      ensures Valid() && View() == Performed(cfg, env, old(View()), grew, MapStore(offset, size))
    {
      hide EofClean, Floor, Mapped, And, Pow2, Performed, PWrite, FTruncate;
      MapStorePerformed(cfg, env, View(), grew, offset, size);
      if grew {
        file := FTruncate(file, fileSize);
      }
      var page := cfg.PageSize();
      file := PWrite(file, offset, good[offset..offset + size]);
      assert good[..][offset..offset + size] == good[offset..offset + size];
      var m := Mapped(env, testcalls, file, offset, size, page);
      PageAligned(env.page(testcalls), page);
      var clean := CheckEofPage(offset, env.page(testcalls) * page, size, m);
      if !clean {
        failed := 205;
      }
    }

    method DoTruncate(size': nat)
      requires Valid() && failed == 0 && CommandOk(cfg, fileSize, TruncateCmd(size'))
      modifies this`fileSize, this`file, good, log, log.oplog
      ensures Valid() && View() == Did(cfg, orig, env, old(View()), TruncateCmd(size'))
      ensures TruncatesFile(cfg, old(View()), View(), size')
    {
      hide Logged, TruncatesFile;
      DidTruncate(cfg, orig, env, View(), size');
      var size := size' - size' % cfg.truncBdy;
      Log4(OP_TRUNCATE, size, fileSize, 0);
      if size > fileSize {
        ZeroGood(fileSize, size);
      } else {
        assert good[..] == ZeroFill(good[..], fileSize, size);
      }
      fileSize := size;
      if testcalls <= cfg.simulated {
        return;
      }
      file := FTruncate(file, size);
    }

    method WriteFileImage()
      requires Valid()
      modifies this`file
      ensures Valid() && View() == WithImage(cfg, old(View()))
      ensures !cfg.lite || |old(file)| <= fileSize ==> file == good[..fileSize]
    {
      assert good[..][..fileSize] == good[..fileSize];
      file := PWrite(file, 0, good[..fileSize]);
      if !cfg.lite {
        file := FTruncate(file, fileSize);
      }
    }

    /** The random choices of test after its first draw rv. */
    method Choose(rv: nat) returns (c: Command)
      requires Valid() && pos > 0 && rv == rnd(pos - 1)
      modifies this`pos
      ensures Valid() && (c, pos) == Decode(cfg, rnd, fileSize, old(pos) - 1)
    {
      var size := cfg.maxOpLen;
      var op := rv % (3 + (if cfg.lite then 0 else 1) + (if cfg.mappedWrites then 1 else 0));
      if op == 2 && !cfg.mappedReads {
        op := 0;
      }
      assert op == OpOf(cfg, rv);
      hide OpOf, Range;
      if !cfg.lite && op == 3 && cfg.style == 0 {
        var r := Random();
        return TruncateCmd(r % cfg.maxFileLen);
      }
      if cfg.randomOpLen {
        var r := Random();
        size := r % (cfg.maxOpLen + 1);
      }
      if !cfg.lite && op == 3 {
        return TruncateCmd(size);
      }
      c := ChooseRange(op, size);
    }

    /** Where to read or write, and how much. */
    method ChooseRange(op: nat, size': nat) returns (c: Command)
      requires Valid() && size' <= cfg.maxOpLen
      modifies this`pos
      ensures Valid() && pos == old(pos) + 1
      ensures c == Range(cfg, fileSize, op, size', rnd(old(pos)))
    {
      var size := size';
      var offset := Random();
      if op == 1 || op == (if cfg.lite then 3 else 4) {
        offset := offset % cfg.maxFileLen;
        if offset + size > cfg.maxFileLen {
          size := cfg.maxFileLen - offset;
        }
        return if op != 1 then MapWriteCmd(offset, size) else WriteCmd(offset, size);
      }
      if fileSize > 0 {
        offset := offset % fileSize;
      } else {
        offset := 0;
      }
      if offset + size > fileSize {
        size := fileSize - offset;
      }
      return if op != 0 then MapReadCmd(offset, size) else ReadCmd(offset, size);
    }

    method Execute(c: Command)
      requires Valid() && failed == 0 && CommandOk(cfg, fileSize, c)
      modifies this`fileSize, this`badoff, this`failed, this`file, good, temp, log, log.oplog
      ensures Valid() && View() == Did(cfg, orig, env, old(View()), c)
    {
      hide Did, Valid, View;
      match c {
        case ReadCmd(offset, size) => DoRead(offset, size);
        case MapReadCmd(offset, size) => DoMapRead(offset, size);
        case WriteCmd(offset, size) => DoWrite(offset, size);
        case MapWriteCmd(offset, size) => DoMapWrite(offset, size);
        case TruncateCmd(size) => DoTruncate(size);
      }
    }

    lemma {:induction false} TestSplits(w: World)
      requires cfg.Ok() && ShadowOk(cfg, w.sh) && |orig| == cfg.maxFileLen && w.failed == 0
      ensures var d := Decode(cfg, rnd, w.sh.size, w.sh.pos);
        var r := Did(cfg, orig, env, Prepared(cfg, w).(sh := Begun(cfg, rnd, w.sh).(pos := d.1)), d.0);
        FsxModel.Test(cfg, orig, rnd, env, w) == if r.sh.calls <= cfg.simulated then r else SizeChecked(cfg, env, r)
    {
    }

    /** writefileimage, once the simulated prefix is over. */
    method PrepareFile()
      requires Valid()
      modifies this`file
      ensures Valid() && View() == Prepared(cfg, old(View()))
    {
      hide WithImage;
      if cfg.simulated > 0 && testcalls == cfg.simulated {
        WriteFileImage();
      }
    }

    lemma {:induction false} PreparedIgnoresPos(w: World, pos: nat)
      requires w.sh.size <= |w.sh.good|
      ensures Prepared(cfg, w.(sh := w.sh.(pos := pos))) == Prepared(cfg, w).(sh := w.sh.(pos := pos))
    {
    }

    /** The start of test: the first draw, the image after a simulated prefix, the counter and the flags. */
    method Begin() returns (rv: nat)
      requires Valid() && failed == 0
      modifies this
      ensures Valid() && rv == rnd(old(pos)) && pos == old(pos) + 1 && fileSize == old(fileSize)
      ensures View() == Prepared(cfg, old(View())).(sh := Begun(cfg, rnd, old(Sh())).(pos := pos))
    {
      hide Prepared;
      rv := Random();
      PreparedIgnoresPos(old(View()), pos);
      PrepareFile();
      Count(rv);
    }

    /** Count the operation and draw the two flags. */
    method Count(rv: nat)
      requires Valid()
      modifies this`testcalls, this`closeopen, this`invl
      ensures Valid()
      ensures Sh() == old(Sh()).(calls := old(testcalls) + 1,
        closeOpen := if cfg.closeProb > 0 then rv / 8 < 0x1000_0000 / cfg.closeProb else old(closeopen),
        invl := if cfg.invlProb > 0 then rv / 8 < 0x1000_0000 / cfg.invlProb else old(invl))
    {
      testcalls := testcalls + 1;
      if cfg.closeProb > 0 {
        closeopen := rv / 8 < 0x1000_0000 / cfg.closeProb;
      }
      if cfg.invlProb > 0 {
        invl := rv / 8 < 0x1000_0000 / cfg.invlProb;
      }
    }

    /** One call of test. */
    method Test()
      requires Valid() && failed == 0
      modifies this, good, temp, log, log.oplog
      ensures Valid() && View() == FsxModel.Test(cfg, orig, rnd, env, old(View()))
    {
      hide Decode, FsxModel.Test, Did, Prepared, CommandOk;
      TestSplits(View());
      var rv := Begin();
      var c := Choose(rv);
      Execute(c);
      if failed == 0 && testcalls > cfg.simulated {
        CheckSize();
      }
    }

    /** The dump shows the log; before the ring wraps, operation n of the dump is the entry that call n of
        test logged, for every call counted, the failed one included, and for no other number. */
    ghost predicate Dumped(dump: seq<Line>)
      requires cfg.Ok() && |orig| == cfg.maxFileLen && log.logcount == |log.all|
      reads this, log
    {
      && |dump| == |log.all| - Oldest(|log.all|)
      && (forall i :: 0 <= i < |dump| ==> log.Shows(dump[i], Oldest(|log.all|) + i))
      && (|log.all| < LOGSIZE ==> forall i: nat, n: nat :: i < |dump| ==>
           (dump[i].Carries(n) <==> n <= testcalls && LoggedBy(cfg, orig, rnd, env, i, n)))
    }

    /** report_failure: the log is dumped. */
    method ReportFailure(ghost k: nat) returns (dump: seq<Line>)
      requires Valid() && View() == Run(cfg, orig, rnd, env, k)
      ensures Valid() && Dumped(dump)
    {
      hide Run, Primaries, LoggedBy;
      dump := log.LogDump();
      if |log.all| < LOGSIZE {
        forall i: nat, n: nat | i < |dump|
          ensures dump[i].Carries(n) <==> n <= testcalls && LoggedBy(cfg, orig, rnd, env, i, n)
        {
          assert log.Shows(dump[i], Oldest(|log.all|) + i);
          if dump[i].Numbered? {
            log.NumbersShown(dump[i], i);
          }
          EntryOfCall(cfg, orig, rnd, env, k, i, n);
        }
      }
    }

    /** The loop of main, for a given number of operations: it ends early only when a check fails, and then
        the log is dumped. On an ideal file system none ever does. */
    method RunTests(numops: nat) returns (dump: seq<Line>)
      requires Valid() && View() == Start(cfg)
      modifies this, good, temp, log, log.oplog
      ensures Valid() && View() == Run(cfg, orig, rnd, env, numops)
      ensures failed == 0 <==> forall j: nat :: j < numops ==> CorrectAt(cfg, orig, rnd, env, j)
      ensures Honest(env) ==> failed == 0
      ensures if failed == 0 then dump == [] else Dumped(dump)
    {
      assert cfg.Ok() && |orig| == cfg.maxFileLen;
      hide Valid, Start, FsxModel.Test, CorrectAt, Honest, Dumped;
      var i := 0;
      while i < numops && failed == 0
        invariant i <= numops && Valid() && cfg.Ok() && |orig| == cfg.maxFileLen
        invariant View() == Run(cfg, orig, rnd, env, i)
      {
        Test();
        i := i + 1;
      }
      StoppedStays(cfg, orig, rnd, env, i, numops);
      OracleIsExact(cfg, orig, rnd, env, numops);
      if Honest(env) {
        OracleSoundness(cfg, orig, rnd, env, numops);
      }
      dump := [];
      if failed != 0 {
        dump := ReportFailure(numops);
      }
    }
  }

  lemma {:induction false} PageAligned(n: nat, page: nat)
    requires page > 0
    ensures n * page >= 0 && n * page % page == 0
  {
    assert n * page == page * n;
    ModUnique(n * page, page, n, 0);
  }

  lemma {:induction false} DifferencesFound(a: seq<byte>, b: seq<byte>, n: nat)
    requires n <= |a| == |b|
    ensures Differences(a, b, n) > 0 <==> a[..n] != b[..n]
    ensures Differences(a, b, n) > 0 <==> LastDifference(a, b, n) >= 0
  {
    if n > 0 {
      DifferencesFound(a, b, n - 1);
      assert a[..n] == a[..n - 1] + [a[n - 1]] && b[..n] == b[..n - 1] + [b[n - 1]];
    } else {
      assert a[..n] == b[..n];
    }
  }
}
