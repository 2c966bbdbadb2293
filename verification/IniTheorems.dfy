/** Whole-text properties of ini_parse_stream, stated over Outcomes, Calls and Result, which
    IniParser.ParseStream computes for every text and handler. */
module IniTheorems {
  import opened CStrings
  import opened IniReader
  import opened IniGrammar
  import opened IniLines

  // ----- first-error reporting -----

  /** The result is 0 exactly when no chunk is bad, and otherwise the number of the first bad one. */
  lemma {:induction false} ResultIsFirstBad(os: seq<Outcome>, h: Handler)
    ensures Result(os, h) == 0 <==> forall i :: 0 <= i < |os| ==> !Bad(os, h, i)
    ensures Result(os, h) > 0 ==>
      var n := Result(os, h) - 1;
      Bad(os, h, n) && forall i :: 0 <= i < n ==> !Bad(os, h, i)
  {
    if |os| == 0 {
    } else {
      var n := |os| - 1;
      var init := os[..n];
      ResultIsFirstBad(init, h);
      forall i | 0 <= i < n
        ensures Bad(os, h, i) == Bad(init, h, i)
      {
        assert init[..i + 1] == os[..i + 1];
      }
    }
  }

  // ----- compositionality -----

  lemma {:induction false} CallsAppend(a: seq<Outcome>, b: seq<Outcome>)
    ensures Calls(a + b) == Calls(a) + Calls(b)
  {
    if |b| == 0 {
      assert a + b == a;
    } else {
      var n := |b| - 1;
      CallsAppend(a, b[..n]);
      assert (a + b)[..|a| + n] == a + b[..n];
    }
  }

  /** The handler as the second part of a run sees it, after the calls cs. */
  function After(h: Handler, cs: seq<Call>): Handler {
    later => h(cs + later)
  }

  lemma {:induction false} ResultAppend(a: seq<Outcome>, b: seq<Outcome>, h: Handler)
    ensures Result(a + b, h) ==
      if Result(a, h) > 0 then Result(a, h)
      else var r := Result(b, After(h, Calls(a))); if r > 0 then |a| + r else 0
  {
    if |b| == 0 {
      assert a + b == a;
    } else {
      var n := |b| - 1;
      ResultAppend(a, b[..n], h);
      CallsAppend(a, b);
      assert (a + b)[..|a| + n] == a + b[..n];
      assert (a + b)[..|a| + n + 1] == a + b && b[..n + 1] == b;
    }
  }

  lemma {:induction false} TraceAppend(ctx: Context, first: bool, a: seq<string>, b: seq<string>)
    ensures Trace(ctx, first, a + b)
         == Trace(ctx, first, a) + Trace(ContextAfter(ctx, first, a), first && |a| == 0, b)
    decreases |a|
  {
    hide ParseLine;
    if |a| == 0 {
      assert a + b == b;
    } else {
      assert (a + b)[1..] == a[1..] + b;
      TraceAppend(ParseLine(ctx, first, a[0]).ctx, false, a[1..], b);
    }
  }

  lemma {:induction false} ContextAppend(ctx: Context, first: bool, a: seq<string>, b: seq<string>)
    ensures ContextAfter(ctx, first, a + b)
         == ContextAfter(ContextAfter(ctx, first, a), first && |a| == 0, b)
    decreases |a|
  {
    hide ParseLine;
    if |a| == 0 {
      assert a + b == b;
    } else {
      assert (a + b)[1..] == a[1..] + b;
      ContextAppend(ParseLine(ctx, first, a[0]).ctx, false, a[1..], b);
    }
  }

  lemma {:induction false} ContextOne(ctx: Context, first: bool, line: string)
    ensures ContextAfter(ctx, first, [line]) == ParseLine(ctx, first, line).ctx
  {
  }

  /** The chunks of text as ini_parse_stream reads them. */
  function Lines(text: string): seq<string> {
    Chunks(text, 0, MAX_LINE - 1)
  }

  /** text ends where a line ends, so what follows starts a new line. */
  predicate AtBoundary(text: string) {
    |text| == 0 || EndsLine(text)
  }

  lemma {:induction false} OutcomesAppend(a: string, b: string)
    requires AtBoundary(a)
    ensures Lines(a + b) == Lines(a) + Lines(b)
    ensures |a| == 0 <==> |Lines(a)| == 0
    ensures Outcomes(a + b)
         == Outcomes(a) + Trace(ContextAfter(START, true, Lines(a)), |a| == 0, Lines(b))
  {
    hide Trace, ContextAfter;
    OutcomesAreTrace(START, true, a + b, 0);
    OutcomesAreTrace(START, true, a, 0);
    ChunksAppend(a, b, 0, MAX_LINE - 1);
    ChunksStep(a, 0, MAX_LINE - 1);
    TraceAppend(START, true, Lines(a), Lines(b));
  }

  /** The first line of a text. */
  function FirstLine(text: string): string {
    text[..LineEnd(text, 0)]
  }

  /** A section header in column 0: a '[', and a ']' that no inline comment comes before. */
  predicate ClosedHeader(line: string) {
    var s := RTrim(CStr(line));
    |s| > 0 && s[0] == '[' &&
    exists k :: 1 <= k < |s| && s[k] == ']' && NoInlineComment(s[1..k])
  }

  /** A closed header makes the parser forget everything it carried. */
  lemma {:induction false} HeaderResets(ctx: Context, ctx': Context, first: bool, first': bool, line: string)
    requires ClosedHeader(line)
    ensures ParseLine(ctx, first, line) == ParseLine(ctx', first', line)
  {
    var s := CStr(line);
    assert s[0] == '[' && !HasBom(first, s) && !HasBom(first', s);
    var text := RTrim(s);
    assert StartAt(text, 0) == 0 && text[0..] == text;
    ClosedHeaderParses(ctx, text);
    ClosedHeaderParses(ctx', text);
  }

  lemma {:induction false} ClosedHeaderParses(ctx: Context, text: string)
    requires |text| > 0 && text[0] == '['
    requires exists k :: 1 <= k < |text| && text[k] == ']' && NoInlineComment(text[1..k])
    ensures var inner := text[1..];
      ParseText(ctx, false, text) == Parsed(Context(Cut(inner[..Find(inner, "]", 0)], MAX_SECTION - 1), ""), Silent)
  {
    var k :| 1 <= k < |text| && text[k] == ']' && NoInlineComment(text[1..k]);
    var inner := text[1..];
    var p := text[1..k];
    var e := Find(inner, "]", 0);
    assert inner[k - 1] == ']' == "]"[0] && StopsAt(inner, "]", k - 1);
    assert p <= inner && e <= k - 1;
    assert forall j :: 0 <= j < |p| ==> inner[j] == p[j];
    assert 1 <= e < |p| && IsSpace(p[e - 1]) ==> p[e] != ';';
    assert inner[e] in "]";
  }

  /** Section boundaries compose: when a ends a line and b opens with a closed header in column 0, the
      calls of a + b are those of a and then those of b, and the first error is a's, else b's, shifted. */
  lemma {:induction false} SectionBoundary(a: string, b: string, h: Handler)
    requires AtBoundary(a) && |b| > 0 && ClosedHeader(FirstLine(b))
    ensures Outcomes(a + b) == Outcomes(a) + Outcomes(b)
    ensures Calls(Outcomes(a + b)) == Calls(Outcomes(a)) + Calls(Outcomes(b))
    ensures Result(Outcomes(a + b), h) ==
      if Result(Outcomes(a), h) > 0 then Result(Outcomes(a), h)
      else
        var r := Result(Outcomes(b), After(h, Calls(Outcomes(a))));
        if r > 0 then |Lines(a)| + r else 0
  {
    hide ParseLine, Result, Calls;
    OutcomesAppend(a, b);
    OutcomesAreTrace(START, true, a, 0);
    OutcomesAreTrace(START, true, b, 0);
    ChunksStep(b, 0, MAX_LINE - 1);
    HeaderResets(ContextAfter(START, true, Lines(a)), START, |a| == 0, true, FirstLine(b));
    CallsAppend(Outcomes(a), Outcomes(b));
    ResultAppend(Outcomes(a), Outcomes(b), h);
  }

  // ----- comment transparency -----

  /** A line (without its newline) that is blank or whose first visible character starts a comment. */
  predicate CommentLine(c: string) {
    NL !in c && |c| <= 198 && IsComment(LTrim(CStr(c)))
  }

  lemma {:induction false} CommentIsSilent(ctx: Context, first: bool, c: string)
    requires CommentLine(c)
    ensures ParseLine(ctx, first, c + "\n") == Parsed(ctx, Silent)
  {
    hide LTrim, RTrim, CStr, ParseHeader, ParsePair;
    var s := CStr(c + "\n");
    NewlineAdded(c);
    FirstVisible(CStr(c), s);
    assert !HasBom(first, s);
    FirstVisible(s, RTrim(s));
  }

  lemma {:induction false} NewlineAdded(c: string)
    ensures CStr(c + "\n") == if NUL in c then CStr(c) else CStr(c) + "\n"
  {
    var line := c + "\n";
    var n := NulAt(c, 0);
    assert forall j :: 0 <= j < |c| ==> line[j] == c[j];
    assert NulAt(line, 0) == if n == |c| then |line| else n;
    assert NUL in c <==> n < |c|;
  }

  /** Whether a text is a comment depends on its first visible character only. */
  lemma {:induction false} FirstVisible(s: string, t: string)
    requires t == s || t == s + "\n" || t == RTrim(s)
    ensures IsComment(LTrim(s)) <==> IsComment(LTrim(t))
    ensures IsComment(LTrim(t)) ==> !(BOM <= t)
  {
    var k, m := StartAt(s, 0), StartAt(t, 0);
    assert BOM <= t ==> t[0] == BOM[0];
    if k < |s| {
      assert k < |t| && t[k] == s[k];
      assert forall j :: 0 <= j < k ==> t[j] == s[j];
      assert m == k;
    } else {
      assert m == |t|;
    }
  }

  lemma {:induction false} CommentIsOneLine(c: string)
    requires CommentLine(c)
    ensures Lines(c + "\n") == [c + "\n"]
  {
    var line := c + "\n";
    assert Concat([line]) == line + Concat([]) == line;
    FittingLinesAreChunks(line, MAX_LINE - 1, [line]);
  }

  /** Without a byte order mark it does not matter whether a line is the first. */
  lemma {:induction false} FirstDoesNotMatter(ctx: Context, first: bool, text: string)
    requires |text| > 0 ==> !HasBom(true, CStr(FirstLine(text)))
    ensures Trace(ctx, first, Lines(text)) == Trace(ctx, false, Lines(text))
  {
  }

  /** The comment line c, inserted between a and b, changes no handler call, and only shifts the number of a
      first error behind it by one. */
  ghost predicate Transparent(a: string, c: string, b: string, h: Handler) {
    && Calls(Outcomes(a + (c + "\n") + b)) == Calls(Outcomes(a + b))
    && var r := Result(Outcomes(a + b), h);
      Result(Outcomes(a + (c + "\n") + b), h) == if r <= |Lines(a)| then r else r + 1
  }

  /** The outcomes with and without the comment line. */
  lemma {:induction false} CommentOutcomes(a: string, c: string, b: string)
    requires AtBoundary(a) && CommentLine(c)
    ensures var ctx := ContextAfter(START, true, Lines(a));
      && |Outcomes(a)| == |Lines(a)|
      && Outcomes(a + b) == Outcomes(a) + Trace(ctx, |a| == 0, Lines(b))
      && Outcomes(a + (c + "\n") + b) == Outcomes(a) + [Silent] + Trace(ctx, false, Lines(b))
  {
    hide ParseLine, Trace;
    var line := c + "\n";
    OutcomesAppend(a, b);
    OutcomesAreTrace(START, true, a, 0);
    CommentIsOneLine(c);
    OutcomesAppend(a, line);
    TraceOne(ContextAfter(START, true, Lines(a)), |a| == 0, c);
    OutcomesAppend(a + line, b);
    ContextAfterComment(Lines(a), c);
  }

  lemma {:induction false} SilentInside(os: seq<Outcome>, tail: seq<Outcome>, h: Handler)
    ensures Calls(os + [Silent] + tail) == Calls(os + tail)
    ensures var r := Result(os + tail, h);
      Result(os + [Silent] + tail, h) == if r <= |os| then r else r + 1
  {
    hide Calls, Result;
    SilentAdds(os, h);
    CallsAppend(os, tail);
    CallsAppend(os + [Silent], tail);
    ResultAppend(os, tail, h);
    ResultAppend(os + [Silent], tail, h);
  }

  /** A comment is transparent when what follows it means the same on line 1 and further down. */
  lemma {:induction false} TransparentBefore(a: string, c: string, b: string, h: Handler)
    requires AtBoundary(a) && CommentLine(c)
    requires |a| == 0 ==> Trace(START, true, Lines(b)) == Trace(START, false, Lines(b))
    ensures Transparent(a, c, b, h)
  {
    hide Trace, Calls, Result;
    CommentOutcomes(a, c, b);
    if |a| == 0 {
      OutcomesAppend(a, b);
      assert ContextAfter(START, true, Lines(a)) == START;
    }
    SilentInside(Outcomes(a), Trace(ContextAfter(START, true, Lines(a)), false, Lines(b)), h);
  }

  lemma {:induction false} TraceOne(ctx: Context, first: bool, c: string)
    requires CommentLine(c)
    ensures Trace(ctx, first, [c + "\n"]) == [Silent]
  {
    hide ParseLine;
    CommentIsSilent(ctx, first, c);
  }

  lemma {:induction false} ContextAfterComment(ls: seq<string>, c: string)
    requires CommentLine(c)
    ensures ContextAfter(START, true, ls + [c + "\n"]) == ContextAfter(START, true, ls)
  {
    hide ParseLine, ContextAfter;
    ContextAppend(START, true, ls, [c + "\n"]);
    ContextOne(ContextAfter(START, true, ls), |ls| == 0, c + "\n");
    CommentIsSilent(ContextAfter(START, true, ls), |ls| == 0, c);
  }

  lemma {:induction false} SilentAdds(os: seq<Outcome>, h: Handler)
    ensures Calls(os + [Silent]) == Calls(os) && Result(os + [Silent], h) == Result(os, h)
  {
  }
}
