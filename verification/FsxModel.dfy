/** fsx.c as a state machine: a shadow image that evolves from one random stream alone, the tested file,
    and the checks of one against what the file system replies. */
module FsxModel {
  import opened PageMask

  type byte = x: int | 0 <= x < 256

  const OP_READ := 1
  const OP_WRITE := 2
  const OP_TRUNCATE := 3
  const OP_CLOSEOPEN := 4
  const OP_MAPREAD := 5
  const OP_MAPWRITE := 6
  const OP_SKIPPED := 7
  const OP_INVALIDATE := 8

  /** The command line options; simulated is simulatedopcount. */
  datatype Config = Config(maxFileLen: nat, maxOpLen: nat, readBdy: nat, writeBdy: nat, truncBdy: nat,
                           style: nat, lite: bool, randomOpLen: bool, mappedReads: bool, mappedWrites: bool,
                           sizeChecks: bool, closeProb: nat, invlProb: nat, simulated: nat, pageBits: nat)
  {
    /** What main accepts, and what test needs: a positive file bound; with style 1 no operation longer than
        the file bound; and lengths whose sums fit in 31 bits. */
    ghost predicate Ok() {
      && 0 < maxFileLen && 0 < maxOpLen && maxFileLen + maxOpLen < 0x8000_0000
      && 0 < readBdy && 0 < writeBdy && 0 < truncBdy
      && style <= 1 && (style == 1 && !lite ==> maxOpLen <= maxFileLen)
    }

    function PageSize(): nat {
      Pow2(pageBits)
    }
  }

  datatype LogEntry = LogEntry(operation: int, arg0: int, arg1: int, arg2: int)

  /** good_buf, file_size, testcalls, everything logged so far, the position in the random stream, and the
      two flags that log4 looks at. */
  datatype Shadow = Shadow(good: seq<byte>, size: nat, calls: nat, log: seq<LogEntry>, pos: nat,
                           closeOpen: bool, invl: bool)

  type Stream = nat -> nat

  ghost predicate ShadowOk(cfg: Config, sh: Shadow) {
    |sh.good| == cfg.maxFileLen && sh.size <= cfg.maxFileLen
  }

  // ----- choosing an operation -----

  datatype Command =
    | ReadCmd(offset: nat, size: nat)
    | MapReadCmd(offset: nat, size: nat)
    | WriteCmd(offset: nat, size: nat)
    | MapWriteCmd(offset: nat, size: nat)
    | TruncateCmd(size: nat)

  /** What the tested file is asked to do. */
  datatype Action =
    | Nothing
    | ReadBack(offset: nat, size: nat)
    | MapReadBack(offset: nat, size: nat)
    | Store(offset: nat, size: nat)
    | MapStore(offset: nat, size: nat)
    | Resize(size: nat)

  ghost predicate CommandOk(cfg: Config, fileSize: nat, c: Command) {
    match c
    case ReadCmd(o, n) => n <= cfg.maxOpLen
    case MapReadCmd(o, n) => n <= cfg.maxOpLen
    case WriteCmd(o, n) => n <= cfg.maxOpLen && o + n <= cfg.maxFileLen
    case MapWriteCmd(o, n) => n <= cfg.maxOpLen && o + n <= cfg.maxFileLen
    case TruncateCmd(n) => n <= cfg.maxFileLen && !cfg.lite
  }

  function OpOf(cfg: Config, rv: nat): nat {
    var op := rv % (3 + (if cfg.lite then 0 else 1) + (if cfg.mappedWrites then 1 else 0));
    if op == 2 && !cfg.mappedReads then 0 else op
  }

  function Min(a: nat, b: nat): nat {
    if a < b then a else b
  }

  /** Where operation op reads or writes: anywhere in the buffer, or inside the file; and how much. */
  function Range(cfg: Config, fileSize: nat, op: nat, size: nat, draw: nat): (c: Command)
    requires cfg.Ok() && fileSize <= cfg.maxFileLen && size <= cfg.maxOpLen
    ensures CommandOk(cfg, fileSize, c)
  {
    if op == 1 || op == (if cfg.lite then 3 else 4) then
      var offset := draw % cfg.maxFileLen;
      var n := Min(size, cfg.maxFileLen - offset);
      if op != 1 then MapWriteCmd(offset, n) else WriteCmd(offset, n)
    else
      var offset := if fileSize > 0 then draw % fileSize else 0;
      var n := Min(size, fileSize - offset);
      if op != 0 then MapReadCmd(offset, n) else ReadCmd(offset, n)
  }

  /** The random choices of one call of test, the first draw rv being at pos: the operation with its offset
      and length before alignment, and where the random stream then stands. */
  function Decode(cfg: Config, rnd: Stream, fileSize: nat, pos: nat): (r: (Command, nat))
    requires cfg.Ok() && fileSize <= cfg.maxFileLen
    ensures CommandOk(cfg, fileSize, r.0) && r.1 > pos
  {
    var op := OpOf(cfg, rnd(pos));
    if !cfg.lite && op == 3 && cfg.style == 0 then
      (TruncateCmd(rnd(pos + 1) % cfg.maxFileLen), pos + 2)
    else
      var size := if cfg.randomOpLen then rnd(pos + 1) % (cfg.maxOpLen + 1) else cfg.maxOpLen;
      var next := if cfg.randomOpLen then pos + 2 else pos + 1;
      if !cfg.lite && op == 3 then (TruncateCmd(size), next)
      else (Range(cfg, fileSize, op, size, rnd(next)), next + 1)
  }

  // ----- the shadow image -----

  /** What gendata puts at offset i: the operation number, plus the original byte at odd offsets. */
  function GenByte(orig: seq<byte>, calls: nat, i: nat): byte
    requires i < |orig|
  {
    if i % 2 == 0 then calls % 256 else (calls % 256 + orig[i]) % 256
  }

  function GenData(orig: seq<byte>, good: seq<byte>, calls: nat, offset: nat, size: nat): (r: seq<byte>)
    requires |orig| == |good|
    ensures |r| == |good|
    ensures forall i :: 0 <= i < |good| ==>
      r[i] == if offset <= i < offset + size then GenByte(orig, calls, i) else good[i]
  {
    seq(|good|, i requires 0 <= i < |good| => if offset <= i < offset + size then GenByte(orig, calls, i) else good[i])
  }

  /** memset(good_buf + from, 0, to - from), nothing if to <= from. */
  function ZeroFill(good: seq<byte>, from: nat, to: nat): (r: seq<byte>)
    ensures |r| == |good|
    ensures forall i :: 0 <= i < |good| ==> r[i] == if from <= i < to then 0 else good[i]
  {
    seq(|good|, i requires 0 <= i < |good| => if from <= i < to then 0 else good[i])
  }

  function Align(x: nat, bdy: nat): (a: nat)
    requires bdy > 0
    ensures a <= x
  {
    x - x % bdy
  }

  /** log4: the entry itself, and a mark for each of the two flags. */
  function Logged(sh: Shadow, e: LogEntry): seq<LogEntry> {
    sh.log + [e]
      + (if sh.closeOpen then [LogEntry(OP_CLOSEOPEN, 0, 0, 0)] else [])
      + (if sh.invl then [LogEntry(OP_INVALIDATE, 0, 0, 0)] else [])
  }

  /** The part dowrite and domapwrite share: generate data, zero a hole, grow. */
  function Written(orig: seq<byte>, sh: Shadow, offset: nat, size: nat): (r: Shadow)
    requires |orig| == |sh.good|
    ensures |r.good| == |sh.good| && r.log == sh.log && r.calls == sh.calls
  {
    var g := GenData(orig, sh.good, sh.calls, offset, size);
    if sh.size < offset + size then sh.(good := ZeroFill(g, sh.size, offset), size := offset + size)
    else sh.(good := g)
  }

  /** doread and domapread. */
  function ExecuteRead(cfg: Config, sh: Shadow, offset: nat, size: nat, mapped: bool): (r: (Shadow, Action))
    requires cfg.Ok() && size <= cfg.maxOpLen
    ensures ActionOk(cfg, r.0, r.1)
    ensures r.0 == sh.(log := r.0.log)
  {
    var op := if mapped then OP_MAPREAD else OP_READ;
    var o := Align(offset, cfg.readBdy);
    if size == 0 || size + o > sh.size then
      (sh.(log := Logged(sh, LogEntry(OP_SKIPPED, op, o, size))), Nothing)
    else
      (sh.(log := Logged(sh, LogEntry(op, o, size, 0))), if mapped then MapReadBack(o, size) else ReadBack(o, size))
  }

  /** dowrite and domapwrite; only dowrite logs the old file size. */
  function ExecuteWrite(cfg: Config, orig: seq<byte>, sh: Shadow, offset: nat, size: nat, mapped: bool): (r: (Shadow, Action))
    requires cfg.Ok() && ShadowOk(cfg, sh) && |orig| == cfg.maxFileLen
    requires size <= cfg.maxOpLen && offset + size <= cfg.maxFileLen
    ensures ShadowOk(cfg, r.0) && ActionOk(cfg, r.0, r.1) && r.0.calls == sh.calls
  {
    var op := if mapped then OP_MAPWRITE else OP_WRITE;
    var o := Align(offset, cfg.writeBdy);
    if size == 0 then
      (sh.(log := Logged(sh, LogEntry(OP_SKIPPED, op, o, size))), Nothing)
    else
      (Written(orig, sh.(log := Logged(sh, LogEntry(op, o, size, if mapped then 0 else sh.size))), o, size),
       if mapped then MapStore(o, size) else Store(o, size))
  }

  /** dotruncate. */
  function ExecuteTruncate(cfg: Config, sh: Shadow, size: nat): (r: (Shadow, Action))
    requires cfg.Ok() && ShadowOk(cfg, sh) && size <= cfg.maxFileLen
    ensures ShadowOk(cfg, r.0) && ActionOk(cfg, r.0, r.1) && r.0.calls == sh.calls
  {
    var n := Align(size, cfg.truncBdy);
    (sh.(log := Logged(sh, LogEntry(OP_TRUNCATE, n, sh.size, 0)), good := ZeroFill(sh.good, sh.size, n), size := n), Resize(n))
  }

  /** What the five operations do to the shadow image and the log, and what they ask of the file. */
  function Execute(cfg: Config, orig: seq<byte>, sh: Shadow, c: Command): (r: (Shadow, Action))
    requires cfg.Ok() && ShadowOk(cfg, sh) && |orig| == cfg.maxFileLen && CommandOk(cfg, sh.size, c)
    ensures ShadowOk(cfg, r.0) && ActionOk(cfg, r.0, r.1) && r.0.calls == sh.calls
  {
    match c
    case ReadCmd(offset, size) => ExecuteRead(cfg, sh, offset, size, false)
    case MapReadCmd(offset, size) => ExecuteRead(cfg, sh, offset, size, true)
    case WriteCmd(offset, size) => ExecuteWrite(cfg, orig, sh, offset, size, false)
    case MapWriteCmd(offset, size) => ExecuteWrite(cfg, orig, sh, offset, size, true)
    case TruncateCmd(size) => ExecuteTruncate(cfg, sh, size)
  }

  ghost predicate ActionOk(cfg: Config, sh: Shadow, act: Action) {
    match act
    case Nothing => true
    case ReadBack(o, n) => 0 < n <= cfg.maxOpLen && o + n <= sh.size
    case MapReadBack(o, n) => 0 < n <= cfg.maxOpLen && o + n <= sh.size
    case Store(o, n) => 0 < n <= cfg.maxOpLen && o + n <= sh.size
    case MapStore(o, n) => 0 < n <= cfg.maxOpLen && o + n <= sh.size
    case Resize(n) => n == sh.size
  }

  /** The shadow after the bookkeeping at the start of test: the call is counted and the flags are drawn. */
  function Begun(cfg: Config, rnd: Stream, sh: Shadow): Shadow {
    var rv := rnd(sh.pos);
    sh.(calls := sh.calls + 1,
        closeOpen := if cfg.closeProb > 0 then rv / 8 < 0x1000_0000 / cfg.closeProb else sh.closeOpen,
        invl := if cfg.invlProb > 0 then rv / 8 < 0x1000_0000 / cfg.invlProb else sh.invl)
  }

  /** One call of test on the shadow. The replies of the file system play no part in it. */
  function Advance(cfg: Config, orig: seq<byte>, rnd: Stream, sh: Shadow): (r: (Shadow, Action))
    requires cfg.Ok() && ShadowOk(cfg, sh) && |orig| == cfg.maxFileLen
    ensures ShadowOk(cfg, r.0) && ActionOk(cfg, r.0, r.1) && r.0.calls == sh.calls + 1
  {
    var d := Decode(cfg, rnd, sh.size, sh.pos);
    Execute(cfg, orig, Begun(cfg, rnd, sh).(pos := d.1), d.0)
  }

  // ----- the tested file -----

  type File = seq<byte>

  /** write(2) at an offset: a hole before it reads as zeros. */
  function PWrite(f: File, offset: nat, data: seq<byte>): (r: File)
    ensures |r| == if |data| == 0 || offset + |data| <= |f| then |f| else offset + |data|
    ensures forall i :: 0 <= i < |r| ==>
      r[i] == if offset <= i < offset + |data| then data[i - offset] else if i < |f| then f[i] else 0
  {
    var n := if |data| == 0 || offset + |data| <= |f| then |f| else offset + |data|;
    seq(n, i requires 0 <= i < n =>
      if offset <= i < offset + |data| then data[i - offset] else if i < |f| then f[i] else 0)
  }

  function FTruncate(f: File, n: nat): (r: File)
    ensures |r| == n && forall i :: 0 <= i < n ==> r[i] == if i < |f| then f[i] else 0
  {
    seq(n, i requires 0 <= i < n => if i < |f| then f[i] else 0)
  }

  /** The n bytes from offset on, as far as the file goes. */
  function PRead(f: File, offset: nat, n: nat): seq<byte> {
    f[Min(offset, |f|)..Min(offset + n, |f|)]
  }

  /** A page-aligned shared mapping of whole pages covering n bytes: beyond the end of the file it is zero. */
  function MMap(f: File, base: nat, n: nat, page: nat): (m: seq<byte>)
    requires page > 0
    ensures |m| == Floor(n + page - 1, page)
    ensures forall i :: 0 <= i < |m| ==> m[i] == if base + i < |f| then f[base + i] else 0
  {
    seq(Floor(n + page - 1, page), i requires 0 <= i < Floor(n + page - 1, page) => if base + i < |f| then f[base + i] else 0)
  }

  /** The file system under test. Whatever it should answer during operation number n, it may answer
      something else: to read, for each byte of a mapping, to fstat and to lseek. It also places mappings. */
  datatype Env = Env(read: (nat, seq<byte>) -> seq<byte>, mem: (nat, nat, byte) -> byte,
                     stat: (nat, nat) -> int, seek: (nat, nat) -> int, page: nat -> nat)

  /** An ideal POSIX.1 file system. */
  ghost predicate Honest(env: Env) {
    && (forall n, b :: env.read(n, b) == b)
    && (forall n, i, b: byte :: env.mem(n, i, b) == b)
    && (forall n, s: nat :: env.stat(n, s) == s)
    && (forall n, s: nat :: env.seek(n, s) == s)
  }

  /** What the mapped access of operation n at offset sees. */
  function Mapped(env: Env, n: nat, f: File, offset: nat, size: nat, page: nat): (m: seq<byte>)
    requires page > 0
    ensures |m| == Floor(offset % page + size + page - 1, page) && |m| >= offset % page + size
  {
    var ideal := MMap(f, Floor(offset, page), offset % page + size, page);
    seq<byte>(|ideal|, i requires 0 <= i < |ideal| => env.mem(n, i, ideal[i]))
  }

  // ----- the checks -----

  /** check_eofpage passes: the access ends by the last page boundary in the file, or the mapping is zero
      from the end of the file to the end of that page. */
  ghost predicate EofClean(m: seq<byte>, offset: nat, size: nat, fileSize: nat, page: nat)
    requires page > 0
  {
    offset + size > Floor(fileSize, page) ==>
      forall i :: 0 <= i < |m| && fileSize <= Floor(offset, page) + i < Floor(fileSize, page) + page ==> m[i] == 0
  }

  /** The number of positions where two buffers differ, up to n. */
  function Differences(a: seq<byte>, b: seq<byte>, n: nat): nat
    requires n <= |a| == |b|
  {
    if n == 0 then 0 else Differences(a, b, n - 1) + if a[n - 1] != b[n - 1] then 1 else 0
  }

  ghost function DifferingAt(a: seq<byte>, b: seq<byte>, n: nat): set<nat>
    requires n <= |a| == |b|
  {
    set i: nat | i < n && a[i] != b[i]
  }

  /** It is the size of the set of those positions. */
  lemma {:induction false} DifferencesCounted(a: seq<byte>, b: seq<byte>, n: nat)
    requires n <= |a| == |b|
    ensures Differences(a, b, n) == |DifferingAt(a, b, n)|
  {
    if n == 0 {
      assert DifferingAt(a, b, n) == {};
    } else {
      DifferencesCounted(a, b, n - 1);
      var before := DifferingAt(a, b, n - 1);
      assert DifferingAt(a, b, n) == if a[n - 1] != b[n - 1] then before + {n - 1} else before;
    }
  }

  /** The greatest position below n where they differ, or -1. */
  function LastDifference(a: seq<byte>, b: seq<byte>, n: nat): (p: int)
    requires n <= |a| == |b|
    ensures -1 <= p < n
    ensures p >= 0 ==> a[p] != b[p]
    ensures forall i :: p < i < n ==> a[i] == b[i]
  {
    if n == 0 then -1 else if a[n - 1] != b[n - 1] then n - 1 else LastDifference(a, b, n - 1)
  }

  /** The first position below n where they differ, or n. */
  function FirstDifference(a: seq<byte>, b: seq<byte>, n: nat): (p: nat)
    requires n <= |a| == |b|
    ensures p <= n && (p < n ==> a[p] != b[p])
    ensures forall i :: 0 <= i < p ==> a[i] == b[i]
  {
    if n == 0 then 0
    else
      var p := FirstDifference(a, b, n - 1);
      if p < n - 1 || a[n - 1] != b[n - 1] then p else n
  }

  /** What is read at a position of a buffer, which may lie outside it. */
  datatype Peek = Outside | Inside(value: nat)

  /** short_at reads two bytes. */
  function ShortAt(buf: seq<byte>, i: nat): Peek
    requires i < |buf|
  {
    if i + 1 < |buf| then Inside(0x100 * (buf[i] as int) + buf[i + 1]) else Outside
  }

  /** The byte at position i, or behind it when it belongs to an odd offset. */
  function NumberAt(buf: seq<byte>, i: nat, offset: nat): Peek {
    var j := if offset % 2 == 1 then i + 1 else i;
    if j < |buf| then Inside(buf[j]) else Outside
  }

  /** What check_buffers prints for the first bad byte, position k of what was read at offset: its offset, two
      bytes from each buffer, and, unless those of the read buffer are both 0, the number of the operation it
      suspects. */
  datatype Mismatch = NoMismatch | Mismatch(at: nat, good: Peek, bad: Peek, number: Peek)

  function MismatchAt(good: seq<byte>, temp: seq<byte>, offset: nat, k: nat): Mismatch
    requires offset + k < |good| && k < |temp|
  {
    Mismatch(offset + k, ShortAt(good, offset + k), ShortAt(temp, k), NumberAt(temp, k, offset + k))
  }

  /** Everything: failed is the exit status of a failed check, 0 while the run goes on. */
  datatype World = World(sh: Shadow, file: File, badoff: int, failed: int)

  /** check_buffers of what was read at offset. */
  function Compared(w: World, offset: nat, got: seq<byte>): World
    requires offset + |got| <= |w.sh.good|
  {
    var want := w.sh.good[offset..offset + |got|];
    if want == got then w
    else w.(badoff := offset + LastDifference(want, got, |got|), failed := 110)
  }

  /** What a real operation does to the file, and the checks of its replies. */
  ghost function Performed(cfg: Config, env: Env, w: World, grew: bool, act: Action): (r: World)
    requires ShadowOk(cfg, w.sh) && ActionOk(cfg, w.sh, act)
    ensures r.sh == w.sh
  {
    var n, page := w.sh.calls, cfg.PageSize();
    match act
    case Nothing => w
    case ReadBack(o, size) =>
      var got := env.read(n, PRead(w.file, o, size));
      if |got| != size then w.(failed := 141) else Compared(w, o, got)
    case MapReadBack(o, size) =>
      var m := Mapped(env, n, w.file, o, size, page);
      if !EofClean(m, o, size, w.sh.size, page) then w.(failed := 205)
      else Compared(w, o, m[o % page..o % page + size])
    case Store(o, size) => w.(file := PWrite(w.file, o, w.sh.good[o..o + size]))
    case MapStore(o, size) =>
      var f := PWrite(if grew then FTruncate(w.file, w.sh.size) else w.file, o, w.sh.good[o..o + size]);
      if EofClean(Mapped(env, n, f, o, size, page), o, size, w.sh.size, page) then w.(file := f)
      else w.(file := f, failed := 205)
    case Resize(size) => w.(file := FTruncate(w.file, size))
  }

  /** check_size. */
  function SizeChecked(cfg: Config, env: Env, w: World): (r: World)
    ensures r.sh == w.sh
  {
    if w.failed == 0 && cfg.sizeChecks
       && (env.stat(w.sh.calls, |w.file|) != w.sh.size || env.seek(w.sh.calls, |w.file|) != w.sh.size)
    then w.(failed := 120)
    else w
  }

  /** writefileimage. */
  function WithImage(cfg: Config, w: World): (r: World)
    requires w.sh.size <= |w.sh.good|
    ensures r == w.(file := r.file)
  {
    var f := PWrite(w.file, 0, w.sh.good[..w.sh.size]);
    w.(file := if cfg.lite then f else FTruncate(f, w.sh.size))
  }

  /** The operation on the tested file, once the shadow in w is up to date: nothing while operations are
      only simulated. In lite mode a file that grows is an error of its own. */
  ghost function Operated(cfg: Config, env: Env, w: World, grew: bool, act: Action): (r: World)
    requires ShadowOk(cfg, w.sh) && ActionOk(cfg, w.sh, act)
    ensures r.sh == w.sh
  {
    if cfg.lite && grew then w.(failed := if act.MapStore? then 200 else 149)
    else if w.sh.calls <= cfg.simulated then w
    else Performed(cfg, env, w, grew, act)
  }

  /** The operation, and check_size after a real one. */
  ghost function Applied(cfg: Config, env: Env, w: World, grew: bool, act: Action): (r: World)
    requires ShadowOk(cfg, w.sh) && ActionOk(cfg, w.sh, act)
    ensures r.sh == w.sh
  {
    var r := Operated(cfg, env, w, grew, act);
    if w.sh.calls <= cfg.simulated then r else SizeChecked(cfg, env, r)
  }

  /** After the simulated prefix the shadow image is written out. */
  function Prepared(cfg: Config, w: World): (r: World)
    requires w.sh.size <= |w.sh.good|
    ensures r == w.(file := r.file)
  {
    if cfg.simulated > 0 && w.sh.calls == cfg.simulated then WithImage(cfg, w) else w
  }

  /** One call of test. A failed check ends the process, so nothing happens after it. */
  ghost function Test(cfg: Config, orig: seq<byte>, rnd: Stream, env: Env, w: World): (r: World)
    requires cfg.Ok() && ShadowOk(cfg, w.sh) && |orig| == cfg.maxFileLen
    ensures ShadowOk(cfg, r.sh)
  {
    if w.failed != 0 then w
    else
      var a := Advance(cfg, orig, rnd, w.sh);
      Applied(cfg, env, Prepared(cfg, w).(sh := a.0), a.0.size > w.sh.size, a.1)
  }

  /** The state main sets up: a zeroed shadow, and an empty file, or in lite mode one zeroed in place. */
  function Start(cfg: Config): World {
    var zeros := seq(cfg.maxFileLen, i => 0 as byte);
    World(Shadow(zeros, if cfg.lite then cfg.maxFileLen else 0, 0, [], cfg.maxFileLen, false, false),
          if cfg.lite then zeros else [], -1, 0)
  }

  /** The state after k calls of test. */
  ghost function Run(cfg: Config, orig: seq<byte>, rnd: Stream, env: Env, k: nat): (w: World)
    requires cfg.Ok() && |orig| == cfg.maxFileLen
    ensures ShadowOk(cfg, w.sh)
  {
    if k == 0 then Start(cfg) else Test(cfg, orig, rnd, env, Run(cfg, orig, rnd, env, k - 1))
  }
}
