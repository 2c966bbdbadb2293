/** A comment line is transparent exactly when it does not come before a byte order mark, or the marked line
    is malformed anyway: the mark is skipped on line 1 only, and further down is part of the first name. */
module IniByteOrderMark {
  import opened CStrings
  import opened IniReader
  import opened IniGrammar
  import opened IniLines
  import opened IniTheorems

  /** The text opens with a byte order mark. */
  predicate Marked(b: string) {
    |b| > 0 && HasBom(true, CStr(FirstLine(b)))
  }

  /** The first line is malformed both as line 1 and further down. */
  predicate MalformedAnyway(b: string) {
    && ParseLine(START, true, FirstLine(b)).outcome.Malformed?
    && ParseLine(START, false, FirstLine(b)).outcome.Malformed?
  }

  /** A blank or comment line inserted at a line boundary, even between a name and its continuation, is
      transparent for every handler, except exactly in front of a text that opens with a byte order mark
      and whose first line is well formed with the mark or without it. */
  lemma {:induction false} CommentTransparency(a: string, c: string, b: string)
    requires AtBoundary(a) && CommentLine(c)
    ensures (forall h: Handler :: Transparent(a, c, b, h)) <==> (|a| == 0 && Marked(b) ==> MalformedAnyway(b))
  {
    hide Trace, Transparent, ParseLine, FirstLine;
    if |a| == 0 && Marked(b) && !MalformedAnyway(b) {
      var h := NotTransparent(c, b);
      assert a == "";
    } else {
      if |a| == 0 {
        if Marked(b) {
          SameAnyway(b);
        } else {
          FirstDoesNotMatter(START, true, b);
        }
      }
      forall h: Handler
        ensures Transparent(a, c, b, h)
      {
        TransparentBefore(a, c, b, h);
      }
    }
  }

  // ----- the marked line on line 1 and below it -----

  lemma {:induction false} MarkStays(s: string)
    requires BOM <= s
    ensures RTrim(s) == BOM + RTrim(s[3..]) && LTrim(RTrim(s)) == RTrim(s)
  {
    var t, e := s[3..], EndAt(s, |s|);
    assert !IsSpace(s[0]) && !IsSpace(s[2]) && s == BOM + t;
    assert e >= 3;
    assert EndAt(t, |t|) == e - 3;
  }

  /** On line 1 the mark is skipped, further down it opens a pair line. */
  lemma {:induction false} MarkedLine(line: string)
    requires HasBom(true, CStr(line))
    ensures var body := RTrim(CStr(line)[3..]);
      && ParseLine(START, true, line) == ParseText(START, true, LTrim(body))
      && ParseLine(START, false, line) == ParsePair(START, BOM + body)
  {
    hide ParseText, ParsePair, CStr, RTrim, LTrim;
    MarkStays(CStr(line));
    MarkedText(RTrim(CStr(line)[3..]));
  }

  lemma {:induction false} MarkedText(body: string)
    ensures ParseText(START, false, BOM + body) == ParsePair(START, BOM + body)
  {
  }

  lemma {:induction false} SameAnyway(b: string)
    requires Marked(b) && MalformedAnyway(b)
    ensures Trace(START, true, Lines(b)) == Trace(START, false, Lines(b))
  {
  }

  /** When both parse as pairs, the name is longer further down. */
  lemma {:induction false} NameGrows(body: string)
    requires !IsComment(LTrim(body))
    requires ParsePair(START, LTrim(body)).outcome.Emit? && ParsePair(START, BOM + body).outcome.Emit?
    ensures |ParsePair(START, LTrim(body)).outcome.call.name| < |ParsePair(START, BOM + body).outcome.call.name|
  {
    hide ParsePair, RTrim, LTrim, Find, IsComment;
    PairName(LTrim(body));
    PairName(BOM + body);
    MarkedNameLonger(body);
  }

  lemma {:induction false} PairName(text: string)
    requires ParsePair(START, text).outcome.Emit?
    ensures ParsePair(START, text).outcome.call.name == RTrim(text[..Find(text, "=:", 0)])
  {
    hide RTrim, ValueOf, Find;
  }

  lemma {:induction false} MarkedNameLonger(body: string)
    requires !IsComment(LTrim(body))
    ensures var text, marked := LTrim(body), BOM + body;
      |RTrim(text[..Find(text, "=:", 0)])| < |RTrim(marked[..Find(marked, "=:", 0)])|
  {
    hide RTrim, Find, StartAt, StopsAt, IsComment;
    var text, marked, k := LTrim(body), BOM + body, StartAt(body, 0) + 3;
    var e, n := Find(text, "=:", 0), Find(marked, "=:", 0);
    NoStopBefore(marked, text, k, e);
    var name := RTrim(text[..e]);
    NameSpan(text[..e], |name|);
    NameSpan(marked[..n], 3);
    NameSpan(marked[..n], k + |name|);
    assert marked[2] == BOM[2];
    assert |name| > 0 ==> marked[k + |name| - 1] == text[|name| - 1];
  }

  /** Trimming stops behind the last visible character. */
  lemma {:induction false} NameSpan(s: string, i: nat)
    ensures |RTrim(s)| <= |s| && (|RTrim(s)| > 0 ==> !IsSpace(s[|RTrim(s)| - 1]))
    ensures 0 < i <= |s| && !IsSpace(s[i - 1]) ==> i <= |RTrim(s)|
  {
  }

  /** What stands before the text of a marked line holds no stop, nor does the mark add one behind it. */
  lemma {:induction false} NoStopBefore(marked: string, text: string, k: nat, e: nat)
    requires BOM <= marked && 3 <= k && |marked| == k + |text| && e <= |text| && !IsComment(text)
    requires forall j :: 0 <= j < |text| ==> marked[k + j] == text[j]
    requires forall j :: 3 <= j < k ==> IsSpace(marked[j])
    requires forall j :: 0 <= j < e ==> !StopsAt(text, "=:", j)
    ensures Find(marked, "=:", 0) >= k + e
  {
    assert marked[0] == BOM[0] && marked[1] == BOM[1] && marked[2] == BOM[2];
    forall j | 0 <= j < k + e
      ensures !StopsAt(marked, "=:", j)
    {
      if j >= k {
        assert marked[j] == text[j - k] && !StopsAt(text, "=:", j - k);
        assert j > k ==> marked[j - 1] == text[j - k - 1];
      }
    }
  }

  // ----- a previous name never costs a call -----

  lemma {:induction false} CallsFirst(o: Outcome, os: seq<Outcome>)
    ensures Calls([o] + os) == (if o.Emit? then [o.call] else []) + Calls(os)
  {
    CallsAppend([o], os);
    assert Calls([o]) == Calls([o][..0]) + if o.Emit? then [o.call] else [];
  }

  /** A line emits at least as much, and leaves a previous name at least as often, when one is set before. */
  lemma {:induction false} LineEmitsMore(ctx: Context, ctx': Context, line: string)
    requires |ctx'.prevName| > 0 ==> |ctx.prevName| > 0
    ensures var p, p' := ParseLine(ctx, false, line), ParseLine(ctx', false, line);
      && (p'.outcome.Emit? ==> p.outcome.Emit?)
      && (|p'.ctx.prevName| > 0 ==> |p.ctx.prevName| > 0)
  {
  }

  lemma {:induction false} EmitsMore(ctx: Context, ctx': Context, ls: seq<string>)
    requires |ctx'.prevName| > 0 ==> |ctx.prevName| > 0
    ensures |Calls(Trace(ctx, false, ls))| >= |Calls(Trace(ctx', false, ls))|
    decreases |ls|
  {
    hide ParseLine, Calls;
    if |ls| == 0 {
    } else {
      var p, p' := ParseLine(ctx, false, ls[0]), ParseLine(ctx', false, ls[0]);
      LineEmitsMore(ctx, ctx', ls[0]);
      EmitsMore(p.ctx, p'.ctx, ls[1..]);
      CallsFirst(p.outcome, Trace(p.ctx, false, ls[1..]));
      CallsFirst(p'.outcome, Trace(p'.ctx, false, ls[1..]));
    }
  }

  // ----- the failing case -----

  /** The calls differ when the marked line is a pair below line 1. */
  lemma {:induction false} CallsDiffer(line: string, rest: seq<string>)
    requires HasBom(true, CStr(line)) && ParseLine(START, false, line).outcome.Emit?
    ensures Calls(Trace(START, true, [line] + rest)) != Calls(Trace(START, false, [line] + rest))
  {
    hide ParseLine, ParsePair, Calls, CStr, LTrim, RTrim;
    var p, p' := ParseLine(START, true, line), ParseLine(START, false, line);
    CallsFirst(p.outcome, Trace(p.ctx, false, rest));
    CallsFirst(p'.outcome, Trace(p'.ctx, false, rest));
    assert ([line] + rest)[1..] == rest;
    MarkedLine(line);
    var body := RTrim(CStr(line)[3..]);
    if p.outcome.Emit? {
      EmitIsPair(LTrim(body));
      NameGrows(body);
      assert Calls(Trace(START, true, [line] + rest))[0] == p.outcome.call;
      assert Calls(Trace(START, false, [line] + rest))[0] == p'.outcome.call;
    } else {
      MarkedNames(body);
      NoNameLeft(LTrim(body));
      EmitsMore(p'.ctx, p.ctx, rest);
    }
  }

  lemma {:induction false} EmitIsPair(text: string)
    requires ParseText(START, true, text).outcome.Emit?
    ensures !IsComment(text) && ParseText(START, true, text) == ParsePair(START, text)
  {
  }

  lemma {:induction false} NoNameLeft(text: string)
    requires !ParseText(START, true, text).outcome.Emit?
    ensures ParseText(START, true, text).ctx.prevName == []
  {
  }

  /** The mark alone makes the name not empty. */
  lemma {:induction false} MarkedNames(body: string)
    requires ParsePair(START, BOM + body).outcome.Emit?
    ensures |ParsePair(START, BOM + body).ctx.prevName| > 0
  {
  }

  /** In front of such a text a comment line is not transparent for the handler that accepts everything. */
  lemma {:induction false} NotTransparent(c: string, b: string) returns (h: Handler)
    requires CommentLine(c) && Marked(b) && !MalformedAnyway(b)
    ensures !Transparent("", c, b, h)
  {
    hide ParseLine, Trace, Calls, Result, FirstLine;
    h := cs => true;
    var line := FirstLine(b);
    var below := Trace(START, false, Lines(b));
    CommentOutcomes("", c, b);
    OutcomesAppend("", b);
    assert Outcomes("") == [] && Outcomes("" + b) == Trace(START, true, Lines(b));
    SilentInside([], below, h);
    assert [] + [Silent] + below == Outcomes("" + (c + "\n") + b) && [] + below == below;
    FirstLineFirst(b);
    MarkedLine(line);
    PairSpeaks(BOM + RTrim(CStr(line)[3..]));
    if ParseLine(START, false, line).outcome.Emit? {
      CallsDiffer(line, Lines(b)[1..]);
    } else {
      FirstOutcome(true, line, Lines(b)[1..], h);
      FirstOutcome(false, line, Lines(b)[1..], h);
    }
  }

  lemma {:induction false} PairSpeaks(text: string)
    ensures !ParsePair(START, text).outcome.Silent?
  {
  }

  lemma {:induction false} FirstLineFirst(b: string)
    requires |b| > 0
    ensures |Lines(b)| > 0 && Lines(b) == [FirstLine(b)] + Lines(b)[1..]
  {
  }

  /** With a handler that accepts everything the result is 1 exactly when line 1 is malformed. */
  lemma {:induction false} FirstOutcome(first: bool, line: string, rest: seq<string>, h: Handler)
    requires forall cs :: h(cs)
    ensures Result(Trace(START, first, [line] + rest), h) == 1 <==> ParseLine(START, first, line).outcome.Malformed?
  {
    hide ParseLine, Result, Calls;
    var os := Trace(START, first, [line] + rest);
    ResultIsFirstBad(os, h);
    assert Bad(os, h, 0) <==> os[0].Malformed?;
  }

  /** For instance a pair line: on line 1 its name is given without the mark, further down with it. */
  lemma {:induction false} NotBeforeByteOrderMark(name: string, value: string)
    requires NUL !in name && NUL !in value && NameOk(name) && ValueOk(value)
    ensures ParseLine(START, true, BOM + (PairLine(name, value) + "\n")).outcome == Emit(Call("", name, value))
    ensures ParseLine(START, false, BOM + (PairLine(name, value) + "\n")).outcome == Emit(Call("", BOM + name, value))
  {
    hide ParseLine;
    var line := PairLine(name, value) + "\n";
    PairForward(START, name, value);
    BomSkipped(line);
    MarkedName(name);
    PairForward(START, BOM + name, value);
    assert BOM + line == PairLine(BOM + name, value) + "\n";
  }

  lemma {:induction false} MarkedName(name: string)
    requires NameOk(name)
    ensures NameOk(BOM + name) && NUL !in BOM
  {
  }

  lemma {:induction false} BomSkipped(line: string)
    requires NUL !in line
    ensures ParseLine(START, true, BOM + line) == ParseLine(START, false, line)
  {
    CleanCStr(line);
    CleanCStr(BOM + line);
    assert (BOM + line)[3..] == line;
  }
}
