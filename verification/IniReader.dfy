/** The fgets-style reader ini_reader_string, and the chunks that repeated calls of it produce. */
module IniReader {
  import opened CStrings

  const NL := '\n'

  /** Where a chunk ends that has been read up to i: after the next newline, or at stop, or at the end. */
  function ChunkEnd(s: string, i: nat, stop: nat): (n: nat)
    requires i <= |s| && i <= stop
    ensures i <= n <= |s| && n <= stop
    ensures i < |s| && i < stop ==> i < n
    ensures forall j :: i <= j < n - 1 ==> s[j] != NL
    ensures n < stop && n < |s| ==> i < n && s[n - 1] == NL
    decreases |s| - i
  {
    if i == |s| || i == stop then i
    else if s[i] == NL then i + 1
    else ChunkEnd(s, i + 1, stop)
  }

  /** The contract of ChunkEnd determines it. */
  lemma {:induction false} ChunkEndUnique(s: string, i: nat, stop: nat, n: nat)
    requires i <= n <= |s| && n <= stop
    requires i < |s| && i < stop ==> i < n
    requires forall j :: i <= j < n - 1 ==> s[j] != NL
    requires n < stop && n < |s| ==> i < n && s[n - 1] == NL
    ensures ChunkEnd(s, i, stop) == n
    decreases |s| - i
  {
  }

  /** The chunks that a reader with room for cap characters and a NUL delivers from position i on. */
  function Chunks(s: string, i: nat, cap: nat): (cs: seq<string>)
    requires cap > 0 && i <= |s|
    decreases |s| - i
  {
    if i == |s| then []
    else
      var e := ChunkEnd(s, i, i + cap);
      [s[i..e]] + Chunks(s, e, cap)
  }

  /** The definition of Chunks, one step of it. */
  lemma {:induction false} ChunksStep(s: string, i: nat, cap: nat)
    requires cap > 0 && i <= |s|
    ensures i == |s| ==> Chunks(s, i, cap) == []
    ensures i < |s| ==>
      var e := ChunkEnd(s, i, i + cap);
      Chunks(s, i, cap) == [s[i..e]] + Chunks(s, e, cap)
  {
  }

  function Concat(cs: seq<string>): string {
    if cs == [] then "" else cs[0] + Concat(cs[1..])
  }

  /** A chunk holds something, fits, and has a newline at most at its end. */
  predicate ChunkShape(c: string, cap: nat) {
    0 < |c| <= cap && forall i :: 0 <= i < |c| - 1 ==> c[i] != NL
  }

  predicate EndsLine(c: string) {
    |c| > 0 && c[|c| - 1] == NL
  }

  /** cs splits s at newlines, and elsewhere only because cap was reached. */
  ghost predicate IsChunking(s: string, cap: nat, cs: seq<string>) {
    && Concat(cs) == s
    && (forall i :: 0 <= i < |cs| ==> ChunkShape(cs[i], cap))
    && (forall i :: 0 <= i < |cs| - 1 ==> EndsLine(cs[i]) || |cs[i]| == cap)
  }

  /** Nothing is lost or reordered, and a chunk ends early only at a newline. */
  lemma {:induction false} ChunksConserve(s: string, i: nat, cap: nat)
    requires cap > 0 && i <= |s|
    ensures IsChunking(s[i..], cap, Chunks(s, i, cap))
    decreases |s| - i
  {
    hide Chunks, ChunkEnd;
    ChunksStep(s, i, cap);
    if i == |s| {
    } else {
      var e := ChunkEnd(s, i, i + cap);
      var rest := Chunks(s, e, cap);
      ChunksConserve(s, e, cap);
      assert s[i..] == s[i..e] + s[e..];
      assert ChunkShape(s[i..e], cap);
      assert rest == [] || e < |s|;
    }
  }

  lemma {:induction false} FirstChunk(s: string, i: nat, cap: nat, cs: seq<string>)
    requires cap > 0 && i <= |s| && IsChunking(s[i..], cap, cs) && |cs| > 0
    ensures var e := i + |cs[0]|;
      && i < e <= |s| && cs[0] == s[i..e] && ChunkEnd(s, i, i + cap) == e
      && IsChunking(s[e..], cap, cs[1..])
  {
    var c, rest := cs[0], cs[1..];
    var e := i + |c|;
    assert ChunkShape(c, cap) && s[i..] == c + Concat(rest);
    assert |s| - i == |c| + |Concat(rest)|;
    assert forall j :: i <= j < e ==> s[j] == s[i..][j - i] == c[j - i];
    assert s[e..] == Concat(rest);
    assert |rest| > 0 ==> EndsLine(cs[0]) || |cs[0]| == cap;
    ChunkEndUnique(s, i, i + cap, e);
  }

  /** ... and these properties leave only one possible list of chunks. */
  lemma {:induction false} ChunksUnique(s: string, i: nat, cap: nat, cs: seq<string>)
    requires cap > 0 && i <= |s| && IsChunking(s[i..], cap, cs)
    ensures cs == Chunks(s, i, cap)
    decreases |cs|
  {
    hide Chunks, ChunkEnd;
    ChunksStep(s, i, cap);
    if |cs| == 0 {
      assert |s[i..]| == 0;
    } else {
      assert cs == [cs[0]] + cs[1..];
      FirstChunk(s, i, cap, cs);
      ChunksUnique(s, i + |cs[0]|, cap, cs[1..]);
    }
  }

  /** ls are the physical lines of s: each ends in its newline, the last perhaps without one. */
  ghost predicate IsLines(s: string, ls: seq<string>) {
    && Concat(ls) == s
    && (forall i :: 0 <= i < |ls| ==> ChunkShape(ls[i], |ls[i]|))
    && (forall i :: 0 <= i < |ls| - 1 ==> EndsLine(ls[i]))
  }

  /** When every physical line fits in the buffer, the chunks are exactly the physical lines. */
  lemma {:induction false} FittingLinesAreChunks(s: string, cap: nat, ls: seq<string>)
    requires cap > 0 && IsLines(s, ls)
    requires forall i :: 0 <= i < |ls| ==> |ls[i]| <= cap
    ensures Chunks(s, 0, cap) == ls
  {
    assert s[0..] == s;
    assert forall i :: 0 <= i < |ls| ==> ChunkShape(ls[i], |ls[i]|);
    ChunksUnique(s, 0, cap, ls);
  }

  lemma {:induction false} ChunkEndShift(a: string, b: string, i: nat, stop: nat)
    requires i <= |b| && i <= stop
    ensures ChunkEnd(a + b, |a| + i, |a| + stop) == |a| + ChunkEnd(b, i, stop)
    decreases |b| - i
  {
    if i < |b| && i < stop && b[i] != NL {
      ChunkEndShift(a, b, i + 1, stop);
    }
  }

  /** Chunks depend only on the text from their start on. */
  lemma {:induction false} ChunksShift(a: string, b: string, i: nat, cap: nat)
    requires cap > 0 && i <= |b|
    ensures Chunks(a + b, |a| + i, cap) == Chunks(b, i, cap)
    decreases |b| - i
  {
    hide Chunks, ChunkEnd;
    ChunksStep(a + b, |a| + i, cap);
    ChunksStep(b, i, cap);
    if i == |b| {
    } else {
      var s, e := a + b, ChunkEnd(b, i, i + cap);
      ChunkEndShift(a, b, i, i + cap);
      assert s[|a| + i..|a| + e] == b[i..e];
      ChunksShift(a, b, e, cap);
    }
  }

  lemma {:induction false} SeqAssoc<T>(a: seq<T>, b: seq<T>, c: seq<T>)
    ensures a + (b + c) == (a + b) + c
  {
  }

  /** Text that ends in a newline, or is empty, is chunked independently of what follows. */
  lemma {:induction false} ChunksAppend(a: string, b: string, i: nat, cap: nat)
    requires cap > 0 && (|a| == 0 || EndsLine(a)) && i <= |a|
    ensures Chunks(a + b, i, cap) == Chunks(a, i, cap) + Chunks(b, 0, cap)
    decreases |a| - i
  {
    hide Chunks;
    ChunksStep(a + b, i, cap);
    ChunksStep(a, i, cap);
    if i == |a| {
      ChunksShift(a, b, 0, cap);
    } else {
      var s, e := a + b, ChunkEnd(a, i, i + cap);
      assert ChunkEnd(s, i, i + cap) == e by {
        assert forall j :: 0 <= j < |a| ==> s[j] == a[j];
        ChunkEndUnique(s, i, i + cap, e);
      }
      ChunksAppend(a, b, e, cap);
      assert s[i..e] == a[i..e];
      SeqAssoc([a[i..e]], Chunks(a, e, cap), Chunks(b, 0, cap));
    }
  }

  /** ini_parse_string_ctx: a text, and how far it has been read. */
  class StringReader {
    const text: string
    var ptr: nat
    var numLeft: nat

    ghost predicate Valid()
      reads this
    {
      ptr + numLeft == |text|
    }

    constructor (text: string)
      ensures Valid() && this.text == text && ptr == 0
    {
      this.text := text;
      ptr, numLeft := 0, |text|;
    }

    /** The loop of ini_reader_string: copy up to num - 1 characters, up to and including a newline. */
    method CopyLine(str: array<char>, num: nat) returns (strp: nat)
      requires Valid() && numLeft > 0 && 2 <= num <= str.Length
      modifies str
      ensures 0 < strp < num && ptr + strp == ChunkEnd(text, ptr, ptr + num - 1)
      ensures forall j :: ptr <= j < ptr + strp ==> str[j - ptr] == text[j]
      ensures forall j :: strp <= j < str.Length ==> str[j] == old(str[j])
    {
      hide ChunkEnd;
      var ctxNumLeft: nat, n: nat := numLeft, num;
      strp := 0;
      while n > 1 && ctxNumLeft != 0
        invariant strp + n == num && n >= 1 && strp + ctxNumLeft == numLeft
        invariant forall j :: ptr <= j < ptr + strp ==> str[j - ptr] == text[j] && text[j] != NL
        invariant forall j :: strp <= j < str.Length ==> str[j] == old(str[j])
      {
        var c := text[ptr + strp];
        ctxNumLeft := ctxNumLeft - 1;
        str[strp] := c;
        strp := strp + 1;
        if c == NL {
          break;
        }
        n := n - 1;
      }
      ChunkEndUnique(text, ptr, ptr + num - 1, ptr + strp);
    }

    /** ini_reader_string: copy the next chunk and a NUL into str, or report the end of the text. */
    method Read(str: array<char>, num: nat) returns (ok: bool)
      requires Valid() && num <= str.Length
      modifies this, str
      ensures Valid()
      ensures ok == (old(numLeft) > 0 && num >= 2)
      ensures !ok ==> ptr == old(ptr) && forall j :: 0 <= j < str.Length ==> str[j] == old(str[j])
      ensures ok ==> old(ptr) < ptr == ChunkEnd(text, old(ptr), old(ptr) + num - 1)
      ensures ok ==> Holds(str, text, old(ptr), ptr)
      ensures forall j :: ptr - old(ptr) < j < str.Length ==> str[j] == old(str[j])
    {
      hide ChunkEnd;
      if numLeft == 0 || num < 2 {
        return false;
      }
      var strp := CopyLine(str, num);
      str[strp] := NUL;
      ptr, numLeft := ptr + strp, numLeft - strp;
      ok := true;
    }
  }

  /** The buffer holds text[from..to] and a NUL. */
  ghost predicate Holds(str: array<char>, text: string, from: nat, to: nat)
    requires from <= to <= |text|
    reads str
  {
    && to - from < str.Length && str[to - from] == NUL
    && forall j :: from <= j < to ==> str[j - from] == text[j]
  }
}
