/** From the characters of a control file to what happens to the next request. */
module ControlFile {
  import opened CStrings
  import opened IniReader
  import opened IniGrammar
  import opened IniLines
  import opened IniTheorems
  import opened IniRoundTrip
  import opened IniPairText
  import opened IniShortTexts
  import opened IniAnyLine
  import opened FaultConfig
  import opened FaultResolution
  import opened FaultEngine
  import opened Dispatch
  import opened ConfigRoundTrip

  // ----- one option, with any padding -----

  /** The option as it is laid out on its line. */
  function OptionText(name: string, pad: string, sep: char, pad': string, value: string, space: string, comment: string): string {
    name + pad + [sep] + pad' + value + space + comment
  }

  /** A text of one header and one option line, whatever whitespace stands before the name, around the
      separator and behind the value, and whatever comment follows, makes exactly the one call with the bare
      name and value. */
  lemma {:induction false} PaddedOption(title: string, before: string, name: string, pad: string, sep: char, pad': string,
                                        value: string, space: string, comment: string, after: string)
    requires |title| <= 49 && Clear(title, "]") && OneLine(title)
    requires PairShape(name, pad, sep, pad', value, space, comment)
    requires Blank(before) && Blank(after)
    requires var text := OptionText(name, pad, sep, pad', value, space, comment);
      Bare(text) && OneLine(before + text + after) && |before + text| <= 199
    ensures var text := OptionText(name, pad, sep, pad', value, space, comment);
      Calls(Outcomes("[" + title + "]\n" + before + text + after + "\n")) == [Call(title, name, value)]
  {
    hide Runs, ParseLine, PairShape, Clear, Bare, White, RTrim, OptionText, Outcomes, Lines, Calls, Trace, ContextAfter;
    var text := OptionText(name, pad, sep, pad', value, space, comment);
    var ctx, line, call := Context(title, ""), before + text + after, Call(title, name, value);
    var ctx' := ctx.(prevName := First49(name));
    ClearTitle(title);
    TitleRuns(title);
    assert ParseText(ctx, |before| > 0, text) == Parsed(ctx', Emit(call)) by {
      PairForm(ctx, |before| > 0, name, pad, sep, pad', value, space, comment);
      TextIs(name, pad, sep, pad', value, space, comment);
    }
    OptionLine(ctx, before, text, after);
    LineRuns(ctx, false, line, ctx', Emit(call));
    TextRunsAppend(START, true, HeaderLine(title) + "\n", ctx, [], line + "\n", ctx', [call]);
    var all := "[" + title + "]\n" + before + text + after + "\n";
    assert all == HeaderLine(title) + "\n" + (line + "\n");
    OutcomesAreLines(all);
    RunCalls(START, true, all, ctx', [] + [call]);
  }

  lemma {:induction false} RunCalls(ctx: Context, first: bool, text: string, ctx': Context, cs: seq<Call>)
    requires TextRuns(ctx, first, text, ctx', cs)
    ensures Calls(Trace(ctx, first, Lines(text))) == cs
  {
    hide Calls, Trace, Lines, ContextAfter;
  }

  lemma {:induction false} TextIs(name: string, pad: string, sep: char, pad': string, value: string, space: string, comment: string)
    ensures OptionText(name, pad, sep, pad', value, space, comment) == name + pad + [sep] + pad' + value + space + comment
  {
  }

  lemma {:induction false} ClearTitle(title: string)
    requires |title| <= 49 && Clear(title, "]")
    ensures TitleOk(title)
  {
    assert forall i :: 0 <= i < |title| ==> title[i] !in "]";
    assert ']' == "]"[0];
  }

  lemma {:induction false} OptionLine(ctx: Context, before: string, text: string, after: string)
    requires Blank(before) && Blank(after) && Bare(text) && OneLine(before + text + after) && |before + text| <= 199
    ensures FitsLine(before + text + after)
    ensures ParseLine(ctx, false, before + text + after + "\n") == ParseText(ctx, |before| > 0, text)
  {
    hide ParseLine, ParseText, RTrim, White;
    var line := before + text + after;
    TrimBehind(before + text, after);
    assert Blank(after + "\n") by {
      NewlineBlank(after);
    }
    assert NUL !in before + text + (after + "\n");
    OnlyTextCounts(ctx, false, "", before, text, after + "\n", "");
    assert "" + before + text + (after + "\n") + "" == line + "\n";
  }

  lemma {:induction false} NewlineBlank(after: string)
    requires Blank(after)
    ensures Blank(after + "\n")
  {
  }

  // ----- what it configures -----

  /** Whatever the padding, the option of a known section makes one rule of that kind with that option. */
  lemma {:induction false} PaddedOptionLoaded(kind: Kind, before: string, name: string, pad: string, sep: char, pad': string,
                                              value: string, space: string, comment: string, after: string)
    requires PairShape(name, pad, sep, pad', value, space, comment)
    requires Blank(before) && Blank(after)
    requires var text := OptionText(name, pad, sep, pad', value, space, comment);
      Bare(text) && OneLine(before + text + after) && |before + text| <= 199
    ensures var text := OptionText(name, pad, sep, pad', value, space, comment);
      Meaning(Calls(Outcomes("[" + KIND_NAMES[kind] + "]\n" + before + text + after + "\n")))
        == [SetOption(ZeroFault(kind), name, value)]
  {
    hide PairShape, Bare, Blank, OptionText, OneLine, Outcomes, Calls, Meaning, SetOption, TypeOf;
    KindTitle(kind);
    PaddedOption(KIND_NAMES[kind], before, name, pad, sep, pad', value, space, comment, after);
    var cs := [Call(KIND_NAMES[kind], name, value)];
    QueueIsMeaning(cs);
    assert cs[..0] == [] && ApplyAll([], cs[..0]) == [];
    ApplyLast([], ZeroFault(kind), name, value);
    assert [] + [SetOption(ZeroFault(kind), name, value)] == [SetOption(ZeroFault(kind), name, value)];
  }

  lemma {:induction false} KindTitle(kind: Kind)
    ensures |KIND_NAMES[kind]| <= 49 && Clear(KIND_NAMES[kind], "]") && OneLine(KIND_NAMES[kind])
  {
    KindNamesLower(kind);
    LowerAt(KIND_NAMES[kind], 0);
    LowerIsName(KIND_NAMES[kind]);
  }

  /** A control file for noops, with tabs around the '='. */
  function NoopFile(p: nat): string {
    "[errinj_noop]\nprobability\t=\t" + Decimal(p) + "\n"
  }

  lemma {:induction false} NoopFileLoaded(p: nat)
    requires p < 0x8000_0000
    ensures Meaning(Calls(Outcomes(NoopFile(p)))) == [Fault(NOOP, None, None, p, 0)]
  {
    hide Meaning, Calls, Outcomes, Decimal, Atoi;
    var value := Decimal(p);
    assert Pow10(10) == 10_000_000_000;
    DecimalLength(p, 10);
    AtoiOfDecimal(p);
    DigitsBare(value);
    NoopShape(value);
    PaddedOptionLoaded(NOOP, "", "probability", "\t", '=', "\t", value, "", "", "");
    NoopText(p);
    OptionNames(ZeroFault(NOOP), "probability", value);
  }

  lemma {:induction false} NoopText(p: nat)
    ensures "[" + KIND_NAMES[NOOP] + "]\n" + "" + OptionText("probability", "\t", '=', "\t", Decimal(p), "", "") + "" + "\n" == NoopFile(p)
  {
    hide Decimal;
    var v := Decimal(p);
    var text := OptionText("probability", "\t", '=', "\t", v, "", "");
    assert text == "probability\t=\t" + v;
    assert "[" + KIND_NAMES[NOOP] + "]\n" == "[errinj_noop]\n";
    var left := "[errinj_noop]\n";
    assert left + "" + text + "" + "\n" == left + text + "\n";
    assert left + ("probability\t=\t" + v) == "[errinj_noop]\nprobability\t=\t" + v;
  }

  lemma {:induction false} DigitsBare(s: string)
    requires |s| > 0 && forall i :: 0 <= i < |s| ==> IsDigit(s[i])
    ensures Bare(s) && Clear(s, "") && s[0] != ';'
  {
  }

  lemma {:induction false} NoopShape(value: string)
    requires Bare(value) && Clear(value, "") && value[0] != ';' && |value| <= 10 && forall i :: 0 <= i < |value| ==> IsDigit(value[i])
    ensures PairShape("probability", "\t", '=', "\t", value, "", "")
    ensures var text := OptionText("probability", "\t", '=', "\t", value, "", "");
      Bare(text) && OneLine("" + text + "") && |"" + text| <= 199
  {
    hide Clear, HasInlineComment, Bare;
    assert AllLower("probability", 0);
    LowerClear("probability");
    NoopTextBare(value);
  }

  lemma {:induction false} LowerClear(s: string)
    requires |s| > 0 && AllLower(s, 0)
    ensures Bare(s) && Clear(s, "=:") && !CommentText(s) && s[0] != '['
  {
    LowerAt(s, 0);
  }

  lemma {:induction false} NoopTextBare(value: string)
    requires Bare(value) && |value| <= 10 && forall i :: 0 <= i < |value| ==> IsDigit(value[i])
    ensures var text := OptionText("probability", "\t", '=', "\t", value, "", "");
      Bare(text) && OneLine("" + text + "") && |"" + text| <= 199
  {
    var left, text := "probability\t=\t", OptionText("probability", "\t", '=', "\t", value, "", "");
    assert text == left + value && "" + text + "" == text;
    assert text[0] == 'p' && text[|text| - 1] == value[|value| - 1];
    LowerAt("probability", 0);
    assert OneLine(left) by {
      assert left == "probability" + "\t=\t";
      assert AllLower("probability", 0);
    }
  }

  // ----- and what happens then -----

  /** A request for the control path while the file holds the printed queue makes that queue the rules that
      decide the next request. */
  lemma {:induction false} PrintedQueueDecides<F, N>(base: Base<F, N>, env: Env, configPath: string, d: Daemon<F, N>, q: seq<Fault>,
                                                     touch: FuseCall, c: FuseCall, path: string, name: string, touched: string)
    requires DistinctKinds(q) && (forall i :: 0 <= i < |q| ==> Sayable(q[i]))
    requires base.disk(d.st.fs) == Content(Print(DocOf(q)))
    requires Asks(touch, configPath, touched) && Asks(c, path, name) && path != configPath
    ensures var (mid, e) := Serve(base, env, configPath, d, touch);
      var (end, e') := Serve(base, env, configPath, mid, c);
      && e.rc == 0 && mid.engine == EngineState(q, d.engine.drawn) && end.engine.rules == q
      && (e'.rc != 0 <==> exists i :: 0 <= i < |q| && InjectsAt(env, q, path, c.Op(), name, d.engine.drawn, i))
  {
    hide Serve, Asks, Meaning, Calls, Outcomes, Print, DocOf, InjectsAt, Sayable, DistinctKinds, QueueAfter;
    var mid := Serve(base, env, configPath, d, touch).0;
    ConfigurationRoundTrip(q);
    QueueIsMeaning(Calls(Outcomes(Print(DocOf(q)))));
    InjectedExactly(base, env, configPath, d, touch, configPath, touched);
    TouchDrawsNothing(base, env, configPath, d, touch, touched);
    InjectedExactly(base, env, configPath, mid, c, path, name);
  }

  lemma {:induction false} TouchDrawsNothing<F, N>(base: Base<F, N>, env: Env, configPath: string, d: Daemon<F, N>, touch: FuseCall, touched: string)
    requires Asks(touch, configPath, touched)
    ensures Serve(base, env, configPath, d, touch).0.engine.drawn == d.engine.drawn
  {
    hide Unreliable, RulesOf;
  }

  /** End to end: once a request for the control path has found the noop file, a mkdir elsewhere is answered 0
      and not performed on exactly the draws whose remainder by 101 is at most the probability written there;
      on all others it is performed. */
  lemma {:induction false} NoopFileDecides<F, N>(base: Base<F, N>, env: Env, configPath: string, d: Daemon<F, N>, p: nat,
                                                 touch: FuseCall, touched: string, path: string, mode: int)
    requires p < 0x8000_0000 && base.disk(d.st.fs) == Content(NoopFile(p))
    requires Asks(touch, configPath, touched) && path != configPath
    ensures var mid := Serve(base, env, configPath, d, touch).0;
      var (end, e) := Serve(base, env, configPath, mid, MkdirCall(path, mode));
      var r := base.mkdir(mid.st.fs, path, mode);
      if env.random(d.engine.drawn) % 101 <= p then end.st == mid.st && e.reply == Reply(0, [])
      else end.st == mid.st.(fs := r.0) && e.reply == Reply(if r.1.Err? then 0 - r.1.errno else 0, [])
  {
    hide Inject, Asks, Meaning, Calls, Outcomes, NoopFile, InjectsAt, DrawOf, Resolve;
    var q := [Fault(NOOP, None, None, p, 0)];
    var mid := Serve(base, env, configPath, d, touch).0;
    NoopFileLoaded(p);
    InjectedExactly(base, env, configPath, d, touch, configPath, touched);
    TouchDrawsNothing(base, env, configPath, d, touch, touched);
    MkdirInjection(env, configPath, mid.engine, p, path, base.disk(mid.st.fs));
  }

  lemma {:induction false} MkdirInjection(env: Env, configPath: string, st: EngineState, p: nat, path: string, disk: Disk)
    requires st.rules == [Fault(NOOP, None, None, p, 0)] && path != configPath
    ensures Inject(env, configPath, st, Request(path, Op.Mkdir, disk)).1.rc == if env.random(st.drawn) % 101 <= p then 999 else 0
  {
    hide Resolve;
    OneRule(env, st.rules[0], path, Op.Mkdir, "mkdir", st.drawn);
    KindNames(NOOP);
    assert st.rules == [st.rules[0]];
  }
}
