/** A text of one pair line, parsed as a whole: exactly which names and values come back. */
module IniPairText {
  import opened CStrings
  import opened IniReader
  import opened IniGrammar
  import opened IniLines
  import opened IniTheorems
  import opened IniByteOrderMark
  import opened IniRoundTrip

  function TextOfPair(name: string, value: string): string {
    PairLine(name, value) + "\n"
  }

  /** Nothing in s ends a C string or a line. */
  predicate OneLine(s: string) {
    NUL !in s && NL !in s
  }

  /** The name may be empty here, since there is no previous name; on line 1 it must not look like a byte
      order mark; and the visible part of the line must fit in the buffer. */
  predicate PairTextOk(first: bool, name: string, value: string) {
    && OneLine(name) && OneLine(value)
    && (NameOk(name) || |name| == 0) && ValueOk(value)
    && !(first && BOM <= name) && |PairText(name, value)| <= 199
  }

  /** Printing one pair and parsing the text makes exactly the one call with its name and value if and only
      if both are well formed and fit; and then no line is malformed. */
  lemma {:induction false} PairTextRoundTrip(name: string, value: string)
    ensures Calls(Outcomes(TextOfPair(name, value))) == [Call("", name, value)] <==> PairTextOk(true, name, value)
    ensures PairTextOk(true, name, value) ==>
      forall i :: 0 <= i < |Outcomes(TextOfPair(name, value))| ==> !Outcomes(TextOfPair(name, value))[i].Malformed?
  {
    hide Outcomes, Calls, PairTextOk, TextOfPair, Trace, ContextAfter;
    OutcomesAreLines(TextOfPair(name, value));
    if PairTextOk(true, name, value) {
      TextForward(START, true, name, value);
    } else if Calls(Outcomes(TextOfPair(name, value))) == [Call("", name, value)] {
      TextBackward(START, true, name, value);
    }
  }

  // ----- what is well formed comes back -----

  lemma {:induction false} TextForward(ctx: Context, first: bool, name: string, value: string)
    requires |ctx.prevName| == 0 && PairTextOk(first, name, value)
    ensures TextRuns(ctx, first, TextOfPair(name, value), ctx.(prevName := Cut(name, MAX_NAME - 1)),
                     [Call(ctx.section, name, value)])
  {
    hide ParseLine, NameOk, ValueOk, RTrim, Runs;
    var line, text := PairLine(name, value), TextOfPair(name, value);
    assert Trimmed(value) by {
      ValuesTrimmed(value);
    }
    VisiblePart(name, value);
    NoMark(name, value);
    NotFirst(ctx, first, text);
    PairRoundTrip(ctx, name, value);
    LineRuns(ctx, first, line, ctx.(prevName := Cut(name, MAX_NAME - 1)), Emit(Call(ctx.section, name, value)));
  }

  lemma {:induction false} OutcomesAreLines(text: string)
    ensures Outcomes(text) == Trace(START, true, Lines(text))
  {
    hide Trace, OutcomesFrom;
    OutcomesAreTrace(START, true, text, 0);
  }

  lemma {:induction false} ValuesTrimmed(value: string)
    requires ValueOk(value)
    ensures Trimmed(value)
  {
  }

  lemma {:induction false} VisiblePart(name: string, value: string)
    requires Trimmed(value)
    ensures RTrim(PairLine(name, value)) == PairText(name, value)
  {
    var line, n := PairLine(name, value), |PairText(name, value)|;
    assert |value| > 0 ==> line[n - 1] == value[|value| - 1];
    TrimmedAt(line, n);
  }

  lemma {:induction false} NoMark(name: string, value: string)
    ensures BOM <= TextOfPair(name, value) <==> BOM <= name
  {
    var text := TextOfPair(name, value);
    assert name <= text && (|name| < 3 ==> text[|name|] == ' ');
    assert BOM <= text ==> text[0] == BOM[0] && text[1] == BOM[1] && text[2] == BOM[2];
    assert BOM <= text && |name| >= 3 ==> name[..3] == BOM;
  }

  lemma {:induction false} NotFirst(ctx: Context, first: bool, line: string)
    requires NUL !in line && !(first && BOM <= line)
    ensures ParseLine(ctx, first, line) == ParseLine(ctx, false, line)
  {
  }

  // ----- where the first call of a text comes from -----

  /** A line that gives no call leaves no previous name where there was none. */
  lemma {:induction false} StillNoName(ctx: Context, first: bool, line: string)
    requires |ctx.prevName| == 0 && !ParseLine(ctx, first, line).outcome.Emit?
    ensures |ParseLine(ctx, first, line).ctx.prevName| == 0
  {
  }

  /** The first call of some lines was made by one of them, when there was no previous name. */
  lemma {:induction false} FirstCall(ctx: Context, first: bool, ls: seq<string>) returns (i: nat, at: Context)
    requires |ctx.prevName| == 0 && |Calls(Trace(ctx, first, ls))| > 0
    ensures i < |ls| && |at.prevName| == 0 && (i == 0 ==> at == ctx)
    ensures ParseLine(at, first && i == 0, ls[i]).outcome == Emit(Calls(Trace(ctx, first, ls))[0])
    decreases |ls|
  {
    hide ParseLine, Calls;
    if |ls| == 0 {
      NoCalls();
    }
    var p := ParseLine(ctx, first, ls[0]);
    CallsFirst(p.outcome, Trace(p.ctx, false, ls[1..]));
    if p.outcome.Emit? {
      i, at := 0, ctx;
    } else {
      StillNoName(ctx, first, ls[0]);
      var j: nat;
      j, at := FirstCall(p.ctx, false, ls[1..]);
      i := j + 1;
    }
  }

  lemma {:induction false} NoCalls()
    ensures Calls([]) == []
  {
  }

  /** Name, separator and value of a call come out of the visible part of the line. */
  lemma {:induction false} CallInside(ctx: Context, indented: bool, text: string, call: Call)
    requires |ctx.prevName| == 0 && ParseText(ctx, indented, text).outcome == Emit(call)
    ensures |call.name| + 1 + |call.value| <= |text|
    ensures forall c :: c in call.name || c in call.value ==> c in text
    ensures !IsComment(text) && text[0] != '[' && ParsePair(ctx, text).outcome == Emit(call)
  {
  }

  lemma {:induction false} TrimInside(s: string)
    ensures |RTrim(s)| <= |s| && forall c :: c in RTrim(s) ==> c in s
    ensures |LTrim(s)| <= |s| && forall c :: c in LTrim(s) ==> c in s
  {
  }

  /** What a line shows: of a chunk, neither the newline nor anything from a NUL on. */
  function Visible(first: bool, line: string): string {
    LTrim(RTrim(StripBom(first, CStr(line))))
  }

  predicate Indented(first: bool, line: string) {
    HasBom(first, CStr(line)) || |Visible(first, line)| < |RTrim(StripBom(first, CStr(line)))|
  }

  lemma {:induction false} ParsesVisible(ctx: Context, first: bool, line: string)
    ensures ParseLine(ctx, first, line) == ParseText(ctx, Indented(first, line), Visible(first, line))
  {
  }

  lemma {:induction false} VisibleInside(first: bool, line: string)
    requires forall j :: 0 <= j < |line| - 1 ==> line[j] != NL
    ensures OneLine(Visible(first, line))
    ensures |Visible(first, line)| <= (if HasBom(first, CStr(line)) then |line| - 3 else |line|)
              - (if EndsLine(line) then 1 else 0)
  {
    hide LTrim;
    var s := StripBom(first, CStr(line));
    var t := RTrim(s);
    TrimInside(t);
    assert |s| == |line| && EndsLine(line) ==> s[|s| - 1] == NL;
    assert t <= s;
  }

  // ----- only what is well formed comes back -----

  lemma {:induction false} ChunksShort(s: string, i: nat, cap: nat)
    requires cap > 0 && i <= |s|
    ensures forall j :: 0 <= j < |Chunks(s, i, cap)| ==> |Chunks(s, i, cap)[j]| <= |s| - i
    decreases |s| - i
  {
    hide ChunkEnd;
    if i == |s| {
    } else {
      ChunksShort(s, ChunkEnd(s, i, i + cap), cap);
    }
  }

  /** The chunks of a text: the first one, and what is left for each of the others. */
  lemma {:induction false} ChunkSizes(text: string)
    requires |text| > 0
    ensures |Lines(text)| > 0 && Lines(text)[0] == FirstLine(text)
    ensures forall j :: 0 <= j < |Lines(text)| ==> ChunkShape(Lines(text)[j], MAX_LINE - 1)
    ensures forall j :: 0 < j < |Lines(text)| ==> |Lines(text)[j]| <= |text| - |FirstLine(text)|
  {
    hide ChunkEnd, Chunks;
    ChunksConserve(text, 0, MAX_LINE - 1);
    ChunksStep(text, 0, MAX_LINE - 1);
    ChunksShort(text, LineEnd(text, 0), MAX_LINE - 1);
  }

  lemma {:induction false} FirstLineOfPair(name: string, value: string)
    requires OneLine(name) && OneLine(value)
    ensures var text := TextOfPair(name, value);
      && |text| == |name| + |value| + 4
      && FirstLine(text) == if |text| < MAX_LINE then text else text[..MAX_LINE - 1]
  {
  }

  lemma {:induction false} FirstLineClean(name: string, value: string)
    requires OneLine(name) && OneLine(value)
    ensures var line := FirstLine(TextOfPair(name, value));
      && NUL !in line && (forall j :: 0 <= j < |line| - 1 ==> line[j] != NL)
      && (line == TextOfPair(name, value) ==> EndsLine(line))
      && (BOM <= name ==> BOM <= line)
  {
  }

  lemma {:induction false} TextBackward(ctx: Context, first: bool, name: string, value: string)
    requires |ctx.prevName| == 0
    requires [Call(ctx.section, name, value)] <= Calls(Trace(ctx, first, Lines(TextOfPair(name, value))))
    ensures PairTextOk(first, name, value)
  {
    hide ParseText, Trace, Calls, Visible, Indented, CStr, Lines, FirstLine, PairTextOk;
    var text, call := TextOfPair(name, value), Call(ctx.section, name, value);
    var i, at := FirstCall(ctx, first, Lines(text));
    var line, f := Lines(text)[i], first && i == 0;
    ChunkSizes(text);
    ParsesVisible(at, f, line);
    VisibleInside(f, line);
    CallInside(at, Indented(f, line), Visible(f, line), call);
    FirstLineOfPair(name, value);
    assert i == 0;
    FirstBackward(ctx, first, name, value);
  }

  /** With a byte order mark the line would show too little for the name and the value. */
  lemma {:induction false} Unmarked(ctx: Context, first: bool, name: string, value: string)
    requires |ctx.prevName| == 0 && OneLine(name) && OneLine(value)
    requires ParseLine(ctx, first, FirstLine(TextOfPair(name, value))).outcome == Emit(Call(ctx.section, name, value))
    ensures var line := FirstLine(TextOfPair(name, value));
      NUL !in line && !(first && BOM <= line) && !(first && BOM <= name)
  {
    hide ParseLine, ParseText, Visible, Indented, CStr, FirstLine, TextOfPair, OneLine, EndsLine;
    var line := FirstLine(TextOfPair(name, value));
    FirstLineOfPair(name, value);
    FirstLineClean(name, value);
    ParsesVisible(ctx, first, line);
    VisibleInside(first, line);
    CallInside(ctx, Indented(first, line), Visible(first, line), Call(ctx.section, name, value));
    CleanCStr(line);
  }

  /** A pair line whose visible part fits is seen whole. */
  lemma {:induction false} SameFirst(name: string, value: string)
    requires OneLine(name) && OneLine(value) && |PairText(name, value)| < MAX_LINE
    ensures var text := TextOfPair(name, value); RTrim(FirstLine(text)) == RTrim(text)
  {
    hide FirstLine, EndAt;
    var text := TextOfPair(name, value);
    FirstLineOfPair(name, value);
    var n, e := EndAt(text, |text|), |FirstLine(text)|;
    assert FirstLine(text) == text[..e];
    assert forall j :: |PairText(name, value)| <= j < |text| ==> IsSpace(text[j]);
    TrimmedAt(text[..e], n);
    assert text[..e][..n] == text[..n];
  }

  lemma {:induction false} PairIsBackward(ctx: Context, name: string, value: string)
    requires OneLine(name) && OneLine(value)
    requires ParseLine(ctx, false, TextOfPair(name, value)).outcome == Emit(Call(ctx.section, name, value))
    ensures (NameOk(name) || |name| == 0) && ValueOk(value)
  {
    hide ParseLine;
    PairBackward(ctx, name, value);
  }

  /** Cut short, the line shows less of the value: behind the separator a space and what is left. */
  lemma {:induction false} TruncatedValue(ctx: Context, name: string, value: string, text: string, e: nat)
    requires e < |text| && Find(text, "=:", 0) == e && |text| - e - 1 <= |value| && |value| > 0
    requires e + 1 < |text| ==> text[e + 1] == ' '
    ensures ParsePair(ctx, text).outcome != Emit(Call(ctx.section, name, value))
  {
  }

  lemma {:induction false} TruncatedUnnamed(ctx: Context, value: string, line: string)
    requires |value| + 3 >= MAX_LINE && line == (" = " + value)[..MAX_LINE - 1]
    ensures ParsePair(ctx, LTrim(RTrim(line))).outcome != Emit(Call(ctx.section, "", value))
  {
    hide ParsePair, RTrim;
    var body := RTrim(line);
    assert line[0] == ' ' && line[1] == '=' && line[2] == ' ';
    NameSpan(line, 2);
    TrimIsPrefix(line);
    assert StartAt(body, 0) == 1;
    var text := LTrim(body);
    assert text[0] == '=' == "=:"[0] && StopsAt(text, "=:", 0);
    assert Find(text, "=:", 0) == 0;
    TruncatedValue(ctx, "", value, text, 0);
  }

  lemma {:induction false} TrimIsPrefix(s: string)
    ensures RTrim(s) <= s && LTrim(s) == s[|s| - |LTrim(s)|..]
    ensures |s| > 0 && !IsSpace(s[0]) ==> LTrim(s) == s && |RTrim(s)| > 0
  {
  }

  lemma {:induction false} NoSeparator(ctx: Context, text: string)
    requires forall j :: 0 <= j < |text| ==> text[j] !in "=:"
    ensures !ParsePair(ctx, text).outcome.Emit?
  {
  }

  /** Cut short before the separator, the line is no pair. */
  lemma {:induction false} CutInName(ctx: Context, name: string, text: string)
    requires NameOk(name) && text <= name + " "
    ensures !ParsePair(ctx, text).outcome.Emit?
  {
    hide ParsePair;
    assert forall j :: 0 <= j < |text| ==> text[j] == if j < |name| then name[j] else ' ';
    NoSeparator(ctx, text);
  }

  lemma {:induction false} TruncatedNamed(ctx: Context, name: string, value: string, line: string)
    requires NameOk(name) && |PairText(name, value)| >= MAX_LINE && MAX_LINE <= |PairLine(name, value)|
    requires line == PairLine(name, value)[..MAX_LINE - 1]
    ensures ParsePair(ctx, LTrim(RTrim(line))).outcome != Emit(Call(ctx.section, name, value))
  {
    hide ParsePair, RTrim, LTrim, Find, NoInlineComment;
    var text := RTrim(line);
    assert line[0] == name[0];
    TrimIsPrefix(line);
    TrimIsPrefix(text);
    if |name| + 2 >= MAX_LINE {
      assert text <= name + " ";
      CutInName(ctx, name, text);
    } else {
      assert line[..|name| + 2] == name + " =" && line[|name| + 1] == '=';
      NameSpan(line, |name| + 2);
      assert text[..|name| + 2] == line[..|name| + 2];
      FindSeparator(name, text);
      assert |text| > |name| + 2 ==> text[|name| + 2] == line[|name| + 2] == ' ';
      TruncatedValue(ctx, name, value, text, |name| + 1);
    }
  }

  /** The visible part of a line that makes a call parses as a pair, with a well-formed name. */
  lemma {:induction false} ShowsPair(ctx: Context, line: string, call: Call)
    requires |ctx.prevName| == 0 && NUL !in line && ParseLine(ctx, false, line).outcome == Emit(call) && call.section == ctx.section
    ensures ParsePair(ctx, LTrim(RTrim(line))).outcome == Emit(call)
    ensures |call.name| > 0 ==> NameOk(call.name)
  {
    hide ParseLine, ParseText, ParsePair, NameOk, CStr, RTrim, LTrim, IsComment, Trimmed, Indented, NoInlineComment;
    var text := LTrim(RTrim(line));
    CleanCStr(line);
    ParsesVisible(ctx, false, line);
    CallInside(ctx, Indented(false, line), text, call);
    TrimmedText(line);
    PairPartsOk(ctx, text, call.name, call.value);
  }

  /** A pair line whose visible part does not fit gives back something else. */
  lemma {:induction false} Truncated(ctx: Context, name: string, value: string)
    requires |ctx.prevName| == 0 && OneLine(name) && OneLine(value) && |PairText(name, value)| >= MAX_LINE
    ensures ParseLine(ctx, false, TextOfPair(name, value)[..MAX_LINE - 1]).outcome != Emit(Call(ctx.section, name, value))
  {
    hide ParseLine, ParsePair, NameOk, RTrim, LTrim;
    var line := PairLine(name, value)[..MAX_LINE - 1];
    assert line == TextOfPair(name, value)[..MAX_LINE - 1];
    if ParseLine(ctx, false, line).outcome == Emit(Call(ctx.section, name, value)) {
      ShowsPair(ctx, line, Call(ctx.section, name, value));
      if |name| == 0 {
        assert line == (" = " + value)[..MAX_LINE - 1];
        TruncatedUnnamed(ctx, value, line);
      } else {
        TruncatedNamed(ctx, name, value, line);
      }
    }
  }

  /** The first chunk makes the call. */
  lemma {:induction false} FirstBackward(ctx: Context, first: bool, name: string, value: string)
    requires |ctx.prevName| == 0 && OneLine(name) && OneLine(value)
    requires ParseLine(ctx, first, FirstLine(TextOfPair(name, value))).outcome == Emit(Call(ctx.section, name, value))
    ensures PairTextOk(first, name, value)
  {
    hide ParseLine, RTrim, CStr, FirstLine, NameOk, ValueOk;
    var text := TextOfPair(name, value);
    var line := FirstLine(text);
    FirstLineOfPair(name, value);
    Unmarked(ctx, first, name, value);
    NotFirst(ctx, first, line);
    if |PairText(name, value)| < MAX_LINE {
      SameFirst(name, value);
      SameVisible(ctx, false, line, text);
      PairIsBackward(ctx, name, value);
    } else {
      Truncated(ctx, name, value);
    }
  }
}
