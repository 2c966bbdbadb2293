/** The ring log of fsx.c: the last LOGSIZE entries, and the numbers logdump gives to operations. */
module FsxLog {
  import opened FsxModel
  import opened FsxShadow

  const LOGSIZE := 1000

  /** What logdump shows for an entry: a mark, or an operation with its number. */
  datatype Line = Mark(entry: LogEntry) | Numbered(number: nat, entry: LogEntry)
  {
    predicate Carries(n: nat) {
      Numbered? && number == n
    }
  }

  /** Position of the oldest entry still in the ring. */
  function Oldest(count: nat): nat {
    if count < LOGSIZE then 0 else count - LOGSIZE
  }

  class RingLog {
    const oplog: array<LogEntry>
    var logptr: nat
    var logcount: nat
    ghost var all: seq<LogEntry>

    /** The ring holds the last LOGSIZE entries, entry j in slot j mod LOGSIZE, and logptr is the slot of
        the next one. */
    ghost predicate Valid()
      reads this, oplog
    {
      && oplog.Length == LOGSIZE
      && logcount == |all|
      && logptr == logcount % LOGSIZE
      && forall s :: 0 <= s < LOGSIZE && s < logcount ==> oplog[s] == all[NewestIn(s)]
    }

    /** The newest entry that went into slot s. */
    ghost function NewestIn(s: nat): (j: nat)
      requires s < LOGSIZE && logptr == logcount % LOGSIZE && s < logcount
      reads this
      ensures j < logcount && Oldest(logcount) <= j
    {
      var round := logcount - logcount % LOGSIZE;
      if s < logptr then round + s else round - LOGSIZE + s
    }

    constructor ()
      ensures Valid() && all == [] && fresh(oplog)
    {
      oplog := new LogEntry[LOGSIZE](_ => LogEntry(0, 0, 0, 0));
      logptr, logcount, all := 0, 0, [];
    }

    method DoLog4(e: LogEntry)
      requires Valid()
      modifies this, oplog
      ensures Valid() && all == old(all) + [e]
    {
      oplog[logptr] := e;
      logptr := logptr + 1;
      logcount := logcount + 1;
      if logptr >= LOGSIZE {
        logptr := 0;
      }
      all := all + [e];
      SlotsMove(old(logcount));
    }

    /** The number logdump gives to the first operation it shows. */
    function FirstNumber(): nat
      reads this
    {
      if logcount < LOGSIZE then 1 else logcount + 1
    }

    /** The line shows entry j of the whole log, an operation with the first number plus how many are shown
        before it. */
    ghost predicate Shows(line: Line, j: nat)
      requires Oldest(logcount) <= j < |all|
      reads this
    {
      && line.entry == all[j]
      && (line.Mark? <==> !IsPrimary(line.entry))
      && (line.Numbered? ==> line.number == FirstNumber() + Primaries(all[Oldest(logcount)..j]))
    }

    /** Before the ring wraps an operation is shown with its own number, the count of operations logged up to
        it. Afterwards it never is: the number is too high by the length of the whole log less the operations
        that have left the ring, and so by at least a whole ring. */
    lemma {:induction false} NumbersShown(line: Line, j: nat)
      requires Oldest(logcount) <= j < |all| && logcount == |all| && Shows(line, j) && line.Numbered?
      ensures line.number == Primaries(all[..j + 1]) <==> logcount < LOGSIZE
      ensures logcount >= LOGSIZE ==>
        && line.number == Primaries(all[..j + 1]) + logcount - Primaries(all[..Oldest(logcount)])
        && line.number >= Primaries(all[..j + 1]) + LOGSIZE
    {
      var old' := Oldest(logcount);
      assert all[..j + 1][..j] == all[..j] == all[..old'] + all[old'..j];
      PrimariesSplit(all[..old'], all[old'..j]);
      FewPrimaries(all[..old']);
      if old' == 0 {
        NoPrimaries();
      }
    }

    /** One line of logdump, and the number of the next operation. */
    method DumpEntry(i: nat, opnum: nat, ghost j: nat) returns (line: Line, opnum': nat)
      requires Valid() && Oldest(logcount) <= j < logcount && i == j % LOGSIZE
      requires opnum == FirstNumber() + Primaries(all[Oldest(logcount)..j])
      ensures Shows(line, j)
      ensures opnum' == FirstNumber() + Primaries(all[Oldest(logcount)..j + 1])
    {
      SlotOf(j);
      var e := oplog[i];
      ghost var shown := all[Oldest(logcount)..j + 1];
      assert shown[..|shown| - 1] == all[Oldest(logcount)..j];
      if e.operation == OP_CLOSEOPEN || e.operation == OP_INVALIDATE {
        return Mark(e), opnum;
      }
      return Numbered(opnum, e), opnum + 1;
    }

    /** logdump: every entry still in the ring, oldest first. */
    method LogDump() returns (lines: seq<Line>)
      requires Valid()
      ensures |lines| == logcount - Oldest(logcount) == if logcount < 1000 then logcount else 1000
      ensures forall k :: 0 <= k < |lines| ==> Shows(lines[k], Oldest(logcount) + k)
    {
      hide Shows, Primaries, NewestIn;
      var i: nat, count: nat := 0, logcount;
      if !(logcount < LOGSIZE) {
        i, count := logptr, LOGSIZE;
      }
      var opnum: nat := i + 1 + (logcount / LOGSIZE) * LOGSIZE;
      lines := [];
      ghost var first := Oldest(logcount);
      OldestSlot(logcount);
      assert opnum == FirstNumber() + Primaries(all[first..first]) by {
        NoPrimaries();
        assert all[first..first] == all[..0];
      }
      assert count == logcount - first && (count > 0 ==> i == first % LOGSIZE);
      hide Oldest, FirstNumber;
      while count > 0
        invariant |lines| + count == logcount - first
        invariant count > 0 ==> i == (first + |lines|) % LOGSIZE
        invariant forall k :: 0 <= k < |lines| ==> Shows(lines[k], first + k)
        invariant opnum == FirstNumber() + Primaries(all[first..first + |lines|])
      {
        var line: Line;
        line, opnum := DumpEntry(i, opnum, first + |lines|);
        SlotsMove(first + |lines|);
        lines := lines + [line];
        i := i + 1;
        if i == LOGSIZE {
          i := 0;
        }
        count := count - 1;
      }
    }

    lemma {:induction false} NoPrimaries()
      ensures Primaries(all[..0]) == 0
    {
    }

    /** Entry j, while it is in the ring, is in slot j mod LOGSIZE. */
    lemma {:induction false} SlotOf(j: nat)
      requires Valid() && Oldest(logcount) <= j < logcount
      ensures oplog[j % LOGSIZE] == all[j]
    {
    }

    lemma {:induction false} OldestSlot(n: nat)
      ensures Oldest(n) <= n && Oldest(n) % LOGSIZE == if n < LOGSIZE then 0 else n % LOGSIZE
    {
    }

    lemma {:induction false} SlotsMove(n: nat)
      ensures (n + 1) % LOGSIZE == if n % LOGSIZE + 1 == LOGSIZE then 0 else n % LOGSIZE + 1
    {
    }
  }
}
