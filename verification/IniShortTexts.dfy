/** Texts of two lines, parsed as a whole: exactly which section titles and continuation lines come back. */
module IniShortTexts {
  import opened CStrings
  import opened IniReader
  import opened IniGrammar
  import opened IniLines
  import opened IniTheorems
  import opened IniByteOrderMark
  import opened IniRoundTrip
  import opened IniPairText

  // ----- what calls are made of -----

  /** What the parser carries is clean: a title that can be printed, and no line end in it. */
  predicate ContextOk(ctx: Context) {
    TitleOk(ctx.section) && OneLine(ctx.section) && OneLine(ctx.prevName)
  }

  predicate CallOk(c: Call) {
    TitleOk(c.section) && OneLine(c.section) && OneLine(c.name) && OneLine(c.value)
  }

  lemma {:induction false} TextClean(ctx: Context, indented: bool, text: string)
    requires ContextOk(ctx) && OneLine(text)
    ensures var p := ParseText(ctx, indented, text); ContextOk(p.ctx) && (p.outcome.Emit? ==> CallOk(p.outcome.call))
  {
    hide RTrim, LTrim;
    if |text| > 0 && text[0] == '[' {
      HeaderClean(text);
    }
    PairClean(ctx, text);
  }

  lemma {:induction false} HeaderClean(text: string)
    requires |text| > 0 && OneLine(text)
    ensures var inner := text[1..];
      var e := Find(inner, "]", 0);
      TitleOk(Cut(inner[..e], MAX_SECTION - 1)) && OneLine(Cut(inner[..e], MAX_SECTION - 1))
  {
    var inner := text[1..];
    var e := Find(inner, "]", 0);
    NoStop(inner[..e], inner, "]");
    var title := Cut(inner[..e], MAX_SECTION - 1);
    assert forall i :: 0 <= i < |title| ==> title[i] == inner[..e][i];
  }

  lemma {:induction false} PairClean(ctx: Context, text: string)
    requires ContextOk(ctx) && OneLine(text)
    ensures var p := ParsePair(ctx, text); ContextOk(p.ctx) && (p.outcome.Emit? ==> CallOk(p.outcome.call))
  {
    hide TitleOk, RTrim, ValueOf;
    var e := Find(text, "=:", 0);
    TrimInside(text[..e]);
    assert forall c :: c in text[..e] ==> c in text;
    assert forall c :: c in Cut(RTrim(text[..e]), MAX_NAME - 1) ==> c in text;
    if e < |text| {
      ValueInside(text[e + 1..]);
      assert forall c :: c in text[e + 1..] ==> c in text;
    }
  }

  lemma {:induction false} ValueInside(v: string)
    ensures |ValueOf(v)| <= |v| && forall c :: c in ValueOf(v) ==> c in v
  {
    var w := v[..Find(v, "", 0)];
    TrimInside(w);
    TrimInside(LTrim(w));
  }

  /** No call has a bad title or a line end in it, whatever the text. */
  lemma {:induction false} CallsClean(ctx: Context, first: bool, ls: seq<string>)
    requires ContextOk(ctx) && forall i :: 0 <= i < |ls| ==> ChunkShape(ls[i], MAX_LINE - 1)
    ensures forall c :: c in Calls(Trace(ctx, first, ls)) ==> CallOk(c)
    decreases |ls|
  {
    hide ParseText, ContextOk, CallOk, Calls, Visible, Indented;
    if |ls| == 0 {
      NoCalls();
    } else {
      var p := ParseLine(ctx, first, ls[0]);
      ParsesVisible(ctx, first, ls[0]);
      assert ChunkShape(ls[0], MAX_LINE - 1);
      VisibleInside(first, ls[0]);
      TextClean(ctx, Indented(first, ls[0]), Visible(first, ls[0]));
      CallsClean(p.ctx, false, ls[1..]);
      CallsFirst(p.outcome, Trace(p.ctx, false, ls[1..]));
    }
  }

  lemma {:induction false} NoLines(text: string)
    requires |text| == 0
    ensures |Lines(text)| == 0
  {
  }

  /** The handler never sees a NUL or a newline, or a section that no header line could say. */
  lemma {:induction false} CallsOfTextClean(text: string)
    ensures forall c :: c in Calls(Outcomes(text)) ==> CallOk(c)
  {
    hide Calls, Trace, Lines, Outcomes, CallOk;
    OutcomesAreLines(text);
    if |text| > 0 {
      ChunkSizes(text);
    } else {
      NoLines(text);
    }
    CallsClean(START, true, Lines(text));
  }

  // ----- two texts, one after the other -----

  lemma {:induction false} TwoTexts(ctx: Context, first: bool, a: string, b: string)
    requires AtBoundary(a) && |a| > 0
    ensures Calls(Trace(ctx, first, Lines(a + b)))
         == Calls(Trace(ctx, first, Lines(a))) + Calls(Trace(ContextAfter(ctx, first, Lines(a)), false, Lines(b)))
  {
    hide Trace, Calls, ContextAfter, Lines;
    LinesAppend(a, b);
    TraceAppend(ctx, first, Lines(a), Lines(b));
    CallsAppend(Trace(ctx, first, Lines(a)), Trace(ContextAfter(ctx, first, Lines(a)), false, Lines(b)));
  }

  // ----- a header and one pair -----

  function TextOfSection(title: string, name: string, value: string): string {
    HeaderLine(title) + "\n" + TextOfPair(name, value)
  }

  /** A section of one pair makes exactly the one call with its title, name and value if and only if the
      title is well formed and the pair fits. */
  lemma {:induction false} SectionTextRoundTrip(title: string, name: string, value: string)
    ensures Calls(Outcomes(TextOfSection(title, name, value))) == [Call(title, name, value)]
      <==> OneLine(title) && TitleOk(title) && PairTextOk(false, name, value)
  {
    hide Outcomes, Calls, PairTextOk, TextOfPair, TitleOk, OneLine, Trace, ContextAfter, Lines;
    var text, call := TextOfSection(title, name, value), Call(title, name, value);
    OutcomesAreLines(text);
    CallsOfTextClean(text);
    assert Calls(Outcomes(text)) == [call] ==> call in Calls(Outcomes(text));
    if OneLine(title) && TitleOk(title) {
      TitleRuns(title);
      TwoTexts(START, true, HeaderLine(title) + "\n", TextOfPair(name, value));
      if PairTextOk(false, name, value) {
        TextForward(Context(title, ""), false, name, value);
      } else if Calls(Outcomes(text)) == [call] {
        TextBackward(Context(title, ""), false, name, value);
      }
    }
  }

  lemma {:induction false} TitleRuns(title: string)
    requires OneLine(title) && TitleOk(title)
    ensures TextRuns(START, true, HeaderLine(title) + "\n", Context(title, ""), [])
  {
    hide ParseLine, TitleOk, RTrim, Runs;
    var line := HeaderLine(title);
    assert |title| < MAX_SECTION by {
      TitlesShort(title);
    }
    TrimInside(line);
    HeaderRoundTrip(START, true, title);
    assert (line + "\n")[0] == '[' != BOM[0];
    LineRuns(START, true, line, Context(title, ""), Silent);
  }

  lemma {:induction false} TitlesShort(title: string)
    requires TitleOk(title)
    ensures |title| < MAX_SECTION
  {
  }

  // ----- a pair and its continuation -----

  function TextOfContinued(name: string, value: string, c: string): string {
    TextOfPair(name, value) + (ContinuationLine(c) + "\n")
  }

  /** A continuation comes back when the name is not cut, and the line fits. */
  predicate ContinuedOk(name: string, c: string) {
    0 < |name| <= 49 && OneLine(c) && ContinuationOk(c) && |ContinuationLine(c)| <= 199
  }

  /** A pair and a continuation line make exactly the two calls they stand for if and only if the pair comes
      back, its name is not empty and not cut, and the continuation is well formed and fits. */
  lemma {:induction false} ContinuedTextRoundTrip(name: string, value: string, c: string)
    ensures Calls(Outcomes(TextOfContinued(name, value, c))) == [Call("", name, value), Call("", name, c)]
      <==> PairTextOk(true, name, value) && ContinuedOk(name, c)
  {
    hide Outcomes, Calls, PairTextOk, TextOfPair, Trace, ContextAfter, Lines, ContinuedOk;
    var a, b := TextOfPair(name, value), ContinuationLine(c) + "\n";
    var ctx := START.(prevName := Cut(name, MAX_NAME - 1));
    OutcomesAreLines(a + b);
    assert AtBoundary(a) && |a| > 0 by {
      PairEndsLine(name, value);
    }
    TwoTexts(START, true, a, b);
    if Calls(Outcomes(a + b)) == [Call("", name, value), Call("", name, c)] {
      ContinuedCalls(name, value, c);
    }
    if PairTextOk(true, name, value) {
      TextForward(START, true, name, value);
      assert Calls(Outcomes(a + b)) == [Call("", name, value)] + Calls(Trace(ctx, false, Lines(b)));
      if ContinuedOk(name, c) {
        ContinuedForward(ctx, name, c);
      } else if Calls(Outcomes(a + b)) == [Call("", name, value), Call("", name, c)] {
        assert Calls(Trace(ctx, false, Lines(b))) == Calls(Outcomes(a + b))[1..];
        ContinuedBackward(ctx, name, c);
      }
    }
  }

  lemma {:induction false} PairEndsLine(name: string, value: string)
    ensures AtBoundary(TextOfPair(name, value)) && |TextOfPair(name, value)| > 0
  {
  }

  lemma {:induction false} ContinuedForward(ctx: Context, name: string, c: string)
    requires ContinuedOk(name, c) && ctx == START.(prevName := Cut(name, MAX_NAME - 1))
    ensures Calls(Trace(ctx, false, Lines(ContinuationLine(c) + "\n"))) == [Call("", name, c)]
  {
    hide ParseLine, RTrim, ContinuationOk, Trace, Calls, Lines, ContextAfter;
    TrimInside(ContinuationLine(c));
    ContinuationRoundTrip(ctx, c);
    LineRuns(ctx, false, ContinuationLine(c), ctx, Emit(Call("", name, c)));
  }

  /** The values of calls are no longer than the lines they come from. */
  lemma {:induction false} ValuesShort(ctx: Context, first: bool, ls: seq<string>, cap: int)
    requires forall i :: 0 <= i < |ls| ==> |ls[i]| <= cap
    ensures forall call :: call in Calls(Trace(ctx, first, ls)) ==> |call.value| <= cap
    decreases |ls|
  {
    hide ParseLine, Calls;
    if |ls| == 0 {
      NoCalls();
    } else {
      var p := ParseLine(ctx, first, ls[0]);
      ValueShort(ctx, first, ls[0]);
      ValuesShort(p.ctx, false, ls[1..], cap);
      CallsFirst(p.outcome, Trace(p.ctx, false, ls[1..]));
    }
  }

  lemma {:induction false} ValueShort(ctx: Context, first: bool, line: string)
    ensures var o := ParseLine(ctx, first, line).outcome; o.Emit? ==> |o.call.value| <= |line|
  {
    hide RTrim, LTrim, ValueOf;
    var s := StripBom(first, CStr(line));
    var text := LTrim(RTrim(s));
    TrimInside(s);
    TrimInside(RTrim(s));
    var e := Find(text, "=:", 0);
    if e < |text| {
      ValueInside(text[e + 1..]);
    }
  }

  /** The first chunk of a continuation line. */
  lemma {:induction false} ContinuationFirst(c: string)
    requires OneLine(c)
    ensures var text := ContinuationLine(c) + "\n";
      && |text| == |c| + 3
      && FirstLine(text) == if |text| < MAX_LINE then text else text[..MAX_LINE - 1]
  {
    hide ChunkEnd;
    var text := ContinuationLine(c) + "\n";
    assert forall j :: 0 <= j < |text| - 1 ==> text[j] != NL;
    assert text[..|text|] == text;
  }

  /** Beyond its first chunk a continuation line is too short for a call with its text. */
  lemma {:induction false} ContinuationTail(ctx: Context, c: string) returns (tail: seq<Call>)
    requires OneLine(c)
    ensures var text := ContinuationLine(c) + "\n";
      var o := ParseLine(ctx, false, FirstLine(text)).outcome;
      && Calls(Trace(ctx, false, Lines(text))) == (if o.Emit? then [o.call] else []) + tail
      && forall i :: 0 <= i < |tail| ==> |tail[i].value| < |c|
  {
    hide ParseLine, Calls, Lines, FirstLine, ContinuationLine;
    var text := ContinuationLine(c) + "\n";
    ContinuationFirst(c);
    ChunkSizes(text);
    var p, rest := ParseLine(ctx, false, FirstLine(text)), Lines(text)[1..];
    assert Lines(text) == [FirstLine(text)] + rest;
    CallsFirst(p.outcome, Trace(p.ctx, false, rest));
    tail := Calls(Trace(p.ctx, false, rest));
    ValuesShort(p.ctx, false, rest, |text| - |FirstLine(text)|);
    if |rest| == 0 {
      NoCalls();
    } else {
      assert ChunkShape(Lines(text)[1], MAX_LINE - 1) && |Lines(text)[1]| <= |text| - |FirstLine(text)|;
    }
  }

  /** When both calls are made, the pair comes back. */
  lemma {:induction false} ContinuedCalls(name: string, value: string, c: string)
    requires Calls(Outcomes(TextOfContinued(name, value, c))) == [Call("", name, value), Call("", name, c)]
    ensures PairTextOk(true, name, value) && OneLine(c)
  {
    hide Outcomes, Calls, PairTextOk, TextOfPair, Trace, ContextAfter, Lines, ParseLine, FirstLine;
    var a, b := TextOfPair(name, value), ContinuationLine(c) + "\n";
    var e, e' := Call("", name, value), Call("", name, c);
    OutcomesAreLines(a + b);
    CallsOfTextClean(a + b);
    assert e' in Calls(Outcomes(a + b));
    PairEndsLine(name, value);
    TwoTexts(START, true, a, b);
    var cs := Calls(Trace(START, true, Lines(a)));
    assert Calls(Outcomes(a + b))[1] == e';
    if |cs| > 0 {
      assert cs[0] == Calls(Outcomes(a + b))[0] == e;
      TextBackward(START, true, name, value);
    } else {
      var tail := ContinuationTail(ContextAfter(START, true, Lines(a)), c);
      assert false;
    }
  }

  lemma {:induction false} VisibleTrimmed(line: string)
    requires OneLine(line) || (EndsLine(line) && OneLine(line[..|line| - 1]))
    requires "  " <= line
    ensures var t := Visible(false, line);
      && Trimmed(t) && |t| + 2 <= |line| && (EndsLine(line) ==> |t| + 3 <= |line|)
      && (|t| > 0 ==> Indented(false, line))
  {
  }

  /** When the continuation comes back, it is well formed and fits. */
  lemma {:induction false} ContinuedBackward(ctx: Context, name: string, c: string)
    requires OneLine(c) && ctx == START.(prevName := Cut(name, MAX_NAME - 1))
    requires Calls(Trace(ctx, false, Lines(ContinuationLine(c) + "\n"))) == [Call("", name, c)]
    ensures ContinuedOk(name, c)
  {
    hide Calls, Trace, Lines, ParseLine, ParsePair, ParseHeader, FirstLine, Visible, Indented, Trimmed;
    var text := ContinuationLine(c) + "\n";
    var line := FirstLine(text);
    var tail := ContinuationTail(ctx, c);
    var o := ParseLine(ctx, false, line).outcome;
    assert o == Emit(Call("", name, c)) by {
      var cs := [Call("", name, c)];
      assert o.Emit? ==> cs == [o.call] + tail && cs[0] == o.call;
      assert !o.Emit? ==> cs == tail;
      assert |cs[0].value| == |c|;
    }
    ContinuationFirst(c);
    ParsesVisible(ctx, false, line);
    VisibleTrimmed(line);
    if |ctx.prevName| == 0 {
      CallInside(ctx, Indented(false, line), Visible(false, line), o.call);
      assert false;
    }
  }
}
