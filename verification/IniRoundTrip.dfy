/** Printing a configuration and parsing it back: for every well-formed document the handler gets
    exactly the document's entries, in order, and the parser reports no error. */
module IniRoundTrip {
  import opened CStrings
  import opened IniReader
  import opened IniGrammar
  import opened IniLines
  import opened IniTheorems

  /** One option: its name, the value on its own line, and any continuation lines. */
  datatype Item = Item(name: string, value: string, more: seq<string>)

  datatype Block = Block(title: string, items: seq<Item>)

  /** A line that no NUL or newline cuts short, and whose visible part fits in the 200-character buffer. */
  predicate FitsLine(s: string) {
    NUL !in s && NL !in s && |RTrim(s)| <= 199
  }

  /** An option that survives printing. The name may be empty while no option of the section has had one. */
  predicate ItemOk(item: Item, unnamed: bool) {
    && (NameOk(item.name) || (unnamed && |item.name| == 0))
    && ValueOk(item.value) && FitsLine(PairLine(item.name, item.value))
    && (|item.more| > 0 ==> 0 < |item.name| <= 49)
    && forall i :: 0 <= i < |item.more| ==> ContinuationOk(item.more[i]) && FitsLine(ContinuationLine(item.more[i]))
  }

  predicate ItemsOk(items: seq<Item>, unnamed: bool) {
    |items| > 0 ==> ItemOk(items[0], unnamed) && ItemsOk(items[1..], unnamed && |items[0].name| == 0)
  }

  predicate BlockOk(block: Block) {
    TitleOk(block.title) && FitsLine(HeaderLine(block.title)) && ItemsOk(block.items, true)
  }

  predicate DocOk(doc: seq<Block>) {
    forall i :: 0 <= i < |doc| ==> BlockOk(doc[i])
  }

  // ----- printing -----

  function PrintMore(more: seq<string>): string {
    if more == [] then "" else ContinuationLine(more[0]) + "\n" + PrintMore(more[1..])
  }

  function PrintItem(item: Item): string {
    PairLine(item.name, item.value) + "\n" + PrintMore(item.more)
  }

  function PrintItems(items: seq<Item>): string {
    if items == [] then "" else PrintItem(items[0]) + PrintItems(items[1..])
  }

  function PrintBlock(block: Block): string {
    HeaderLine(block.title) + "\n" + PrintItems(block.items)
  }

  function Print(doc: seq<Block>): string {
    if doc == [] then "" else PrintBlock(doc[0]) + Print(doc[1..])
  }

  // ----- the calls a document stands for -----

  function MoreCalls(title: string, name: string, more: seq<string>): seq<Call> {
    if more == [] then [] else [Call(title, name, more[0])] + MoreCalls(title, name, more[1..])
  }

  function ItemCalls(title: string, item: Item): seq<Call> {
    [Call(title, item.name, item.value)] + MoreCalls(title, item.name, item.more)
  }

  function ItemsCalls(title: string, items: seq<Item>): seq<Call> {
    if items == [] then [] else ItemCalls(title, items[0]) + ItemsCalls(title, items[1..])
  }

  function DocCalls(doc: seq<Block>): seq<Call> {
    if doc == [] then [] else ItemsCalls(doc[0].title, doc[0].items) + DocCalls(doc[1..])
  }

  // ----- parsing a list of lines -----

  /** From ctx, parsing the lines ls reaches ctx' with exactly the calls cs and nothing malformed. */
  ghost predicate Runs(ctx: Context, first: bool, ls: seq<string>, ctx': Context, cs: seq<Call>) {
    && ContextAfter(ctx, first, ls) == ctx'
    && Calls(Trace(ctx, first, ls)) == cs
    && forall i :: 0 <= i < |ls| ==> !Trace(ctx, first, ls)[i].Malformed?
  }

  lemma {:induction false} RunsOne(ctx: Context, first: bool, line: string, ctx': Context, outcome: Outcome)
    requires ParseLine(ctx, first, line) == Parsed(ctx', outcome) && !outcome.Malformed?
    ensures Runs(ctx, first, [line], ctx', if outcome.Emit? then [outcome.call] else [])
  {
  }

  lemma {:induction false} RunsAppend(ctx: Context, first: bool, a: seq<string>, mid: Context, cs: seq<Call>,
                   b: seq<string>, end: Context, ds: seq<Call>)
    requires Runs(ctx, first, a, mid, cs) && Runs(mid, first && |a| == 0, b, end, ds)
    ensures Runs(ctx, first, a + b, end, cs + ds)
  {
    hide Trace, ContextAfter, Calls;
    TraceAppend(ctx, first, a, b);
    ContextAppend(ctx, first, a, b);
    CallsAppend(Trace(ctx, first, a), Trace(mid, first && |a| == 0, b));
  }

  // ----- the chunks of a printed line -----

  /** Only what trimming leaves of a line matters. */
  lemma {:induction false} SameVisible(ctx: Context, first: bool, s: string, t: string)
    requires NUL !in s && NUL !in t && RTrim(s) == RTrim(t) && !HasBom(first, s) && !HasBom(first, t)
    ensures ParseLine(ctx, first, s) == ParseLine(ctx, first, t)
  {
    hide ParseText, RTrim, LTrim;
    CleanCStr(s);
    CleanCStr(t);
  }

  /** Chunks of nothing but whitespace. */
  lemma {:induction false} BlankRuns(ctx: Context, text: string, i: nat)
    requires i <= |text| && forall j :: i <= j < |text| ==> IsSpace(text[j])
    ensures Runs(ctx, false, Chunks(text, i, MAX_LINE - 1), ctx, [])
    decreases |text| - i
  {
    hide ParseLine;
    ChunksStep(text, i, MAX_LINE - 1);
    if i == |text| {
    } else {
      var e := LineEnd(text, i);
      BlankLine(ctx, text[i..e]);
      RunsOne(ctx, false, text[i..e], ctx, Silent);
      BlankRuns(ctx, text, e);
      RunsAppend(ctx, false, [text[i..e]], ctx, [], Chunks(text, e, MAX_LINE - 1), ctx, []);
    }
  }

  lemma {:induction false} BlankLine(ctx: Context, line: string)
    requires forall j :: 0 <= j < |line| ==> IsSpace(line[j])
    ensures ParseLine(ctx, false, line) == Parsed(ctx, Silent)
  {
  }

  /** The first chunk of a printed line holds everything visible, and there is nothing behind it. */
  lemma {:induction false} PrintedLine(s: string)
    requires FitsLine(s)
    ensures var text := s + "\n";
      var e := LineEnd(text, 0);
      RTrim(text[..e]) == RTrim(text) && forall j :: e <= j < |text| ==> IsSpace(text[j])
  {
  }

  lemma {:induction false} TrimmedAt(s: string, n: nat)
    requires n <= |s| && (forall j :: n <= j < |s| ==> IsSpace(s[j])) && (n > 0 ==> !IsSpace(s[n - 1]))
    ensures RTrim(s) == s[..n]
  {
  }

  /** What a text does that ends where a line ends. */
  ghost predicate TextRuns(ctx: Context, first: bool, text: string, ctx': Context, cs: seq<Call>) {
    AtBoundary(text) && Runs(ctx, first, Lines(text), ctx', cs)
  }

  lemma {:induction false} LineRuns(ctx: Context, first: bool, s: string, ctx': Context, outcome: Outcome)
    requires FitsLine(s) && !HasBom(first, s + "\n")
    requires ParseLine(ctx, first, s + "\n") == Parsed(ctx', outcome) && !outcome.Malformed?
    ensures TextRuns(ctx, first, s + "\n", ctx', if outcome.Emit? then [outcome.call] else [])
  {
    hide ParseLine, Runs, ChunkEnd, RTrim;
    var text := s + "\n";
    var e := LineEnd(text, 0);
    PrintedLine(s);
    SameVisible(ctx, first, text[..e], text);
    RunsOne(ctx, first, text[..e], ctx', outcome);
    BlankRuns(ctx', text, e);
    var cs := if outcome.Emit? then [outcome.call] else [];
    RunsAppend(ctx, first, [text[..e]], ctx', cs, Chunks(text, e, MAX_LINE - 1), ctx', []);
    ChunksStep(text, 0, MAX_LINE - 1);
    assert cs + [] == cs;
  }

  lemma {:induction false} TextRunsAppend(ctx: Context, first: bool, a: string, mid: Context, cs: seq<Call>,
                   b: string, end: Context, ds: seq<Call>)
    requires TextRuns(ctx, first, a, mid, cs) && TextRuns(mid, first && |a| == 0, b, end, ds)
    ensures TextRuns(ctx, first, a + b, end, cs + ds)
  {
    hide Runs, Lines;
    LinesAppend(a, b);
    RunsAppend(ctx, first, Lines(a), mid, cs, Lines(b), end, ds);
  }

  lemma {:induction false} LinesAppend(a: string, b: string)
    requires AtBoundary(a)
    ensures Lines(a + b) == Lines(a) + Lines(b) && (|a| == 0 <==> |Lines(a)| == 0)
    ensures AtBoundary(b) ==> AtBoundary(a + b)
  {
    hide Lines, Outcomes, Trace;
    OutcomesAppend(a, b);
  }

  lemma {:induction false} NothingRuns(ctx: Context, first: bool)
    ensures TextRuns(ctx, first, "", ctx, [])
  {
  }

  // ----- parsing a document -----

  lemma {:induction false} MoreRuns(ctx: Context, more: seq<string>)
    requires |ctx.prevName| > 0
    requires forall i :: 0 <= i < |more| ==> ContinuationOk(more[i]) && FitsLine(ContinuationLine(more[i]))
    ensures TextRuns(ctx, false, PrintMore(more), ctx, MoreCalls(ctx.section, ctx.prevName, more))
  {
    hide ParseLine, TextRuns;
    NothingRuns(ctx, false);
    if |more| == 0 {
    } else {
      var c := more[0];
      assert ContinuationLine(c)[2..] == c;
      assert NUL !in c;
      var call := Call(ctx.section, ctx.prevName, c);
      ContinuationRoundTrip(ctx, c);
      LineRuns(ctx, false, ContinuationLine(c), ctx, Emit(call));
      MoreRuns(ctx, more[1..]);
      TextRunsAppend(ctx, false, ContinuationLine(c) + "\n", ctx, [call],
                     PrintMore(more[1..]), ctx, MoreCalls(ctx.section, ctx.prevName, more[1..]));
    }
  }

  lemma {:induction false} ItemRuns(ctx: Context, item: Item)
    requires ItemOk(item, |ctx.prevName| == 0)
    ensures TextRuns(ctx, false, PrintItem(item), ctx.(prevName := Cut(item.name, MAX_NAME - 1)), ItemCalls(ctx.section, item))
  {
    hide ParseLine, TextRuns;
    var line := PairLine(item.name, item.value);
    var call := Call(ctx.section, item.name, item.value);
    var ctx' := ctx.(prevName := Cut(item.name, MAX_NAME - 1));
    assert forall c :: c in item.name || c in item.value ==> c in line;
    PairRoundTrip(ctx, item.name, item.value);
    LineRuns(ctx, false, line, ctx', Emit(call));
    if |item.more| > 0 {
      MoreRuns(ctx', item.more);
    } else {
      NothingRuns(ctx', false);
    }
    TextRunsAppend(ctx, false, line + "\n", ctx', [call],
                   PrintMore(item.more), ctx', MoreCalls(ctx.section, item.name, item.more));
  }

  lemma {:induction false} ItemsRun(ctx: Context, items: seq<Item>) returns (end: Context)
    requires ItemsOk(items, |ctx.prevName| == 0)
    ensures TextRuns(ctx, false, PrintItems(items), end, ItemsCalls(ctx.section, items))
    decreases |items|
  {
    hide ParseLine, ItemOk, TextRuns;
    NothingRuns(ctx, false);
    end := ctx;
    if |items| == 0 {
    } else {
      var mid := ctx.(prevName := Cut(items[0].name, MAX_NAME - 1));
      ItemRuns(ctx, items[0]);
      UnnamedStays(items, ctx);
      end := ItemsRun(mid, items[1..]);
      TextRunsAppend(ctx, false, PrintItem(items[0]), mid, ItemCalls(ctx.section, items[0]),
                     PrintItems(items[1..]), end, ItemsCalls(ctx.section, items[1..]));
    }
  }

  /** After an option without a name there is still no previous name. */
  lemma {:induction false} UnnamedStays(items: seq<Item>, ctx: Context)
    requires ItemsOk(items, |ctx.prevName| == 0) && |items| > 0
    ensures ItemsOk(items[1..], |Cut(items[0].name, MAX_NAME - 1)| == 0)
  {
  }

  lemma {:induction false} BlockRuns(ctx: Context, first: bool, block: Block) returns (end: Context)
    requires BlockOk(block)
    ensures TextRuns(ctx, first, PrintBlock(block), end, ItemsCalls(block.title, block.items))
  {
    hide ParseLine, ItemsOk, TextRuns;
    var line, mid := HeaderLine(block.title), Context(block.title, "");
    assert line[1..|line| - 1] == block.title;
    assert forall c :: c in block.title ==> c in line;
    HeaderRoundTrip(ctx, first, block.title);
    assert (line + "\n")[0] == '[' != BOM[0];
    LineRuns(ctx, first, line, mid, Silent);
    end := ItemsRun(mid, block.items);
    TextRunsAppend(ctx, first, line + "\n", mid, [], PrintItems(block.items), end, ItemsCalls(block.title, block.items));
    assert [] + ItemsCalls(block.title, block.items) == ItemsCalls(block.title, block.items);
  }

  lemma {:induction false} DocRuns(ctx: Context, first: bool, doc: seq<Block>) returns (end: Context)
    requires DocOk(doc)
    ensures TextRuns(ctx, first, Print(doc), end, DocCalls(doc))
    decreases |doc|
  {
    hide ParseLine, BlockOk, TextRuns, PrintItems;
    NothingRuns(ctx, first);
    end := ctx;
    if |doc| == 0 {
    } else {
      var mid := BlockRuns(ctx, first, doc[0]);
      end := DocRuns(mid, false, doc[1..]);
      TextRunsAppend(ctx, first, PrintBlock(doc[0]), mid, ItemsCalls(doc[0].title, doc[0].items),
                     Print(doc[1..]), end, DocCalls(doc[1..]));
    }
  }

  /** Round trip: parsing a printed well-formed document makes exactly the document's calls, and no line
      is malformed, so the result is 0 as soon as the handler accepts them all. */
  lemma {:induction false} RoundTrip(doc: seq<Block>, h: Handler)
    requires DocOk(doc)
    ensures Calls(Outcomes(Print(doc))) == DocCalls(doc)
    ensures (forall k :: 1 <= k <= |DocCalls(doc)| ==> h(DocCalls(doc)[..k])) ==> Result(Outcomes(Print(doc)), h) == 0
  {
    hide ParseLine, Trace, ContextAfter, Result, DocOk, Print, DocCalls, Calls;
    OutcomesAreTrace(START, true, Print(doc), 0);
    var end := DocRuns(START, true, doc);
    AllAccepted(Outcomes(Print(doc)), h);
  }

  /** Without a malformed line, and with every call accepted, the result is 0. */
  lemma {:induction false} AllAccepted(os: seq<Outcome>, h: Handler)
    requires forall i :: 0 <= i < |os| ==> !os[i].Malformed?
    ensures (forall k :: 1 <= k <= |Calls(os)| ==> h(Calls(os)[..k])) ==> Result(os, h) == 0
  {
    hide Calls, Result;
    ResultIsFirstBad(os, h);
    forall i | 0 <= i < |os| && os[i].Emit?
      ensures 1 <= |Calls(os[..i + 1])| <= |Calls(os)| && Calls(os[..i + 1]) == Calls(os)[..|Calls(os[..i + 1])|]
    {
      CallsPrefix(os, i);
    }
  }

  lemma {:induction false} CallsPrefix(os: seq<Outcome>, i: nat)
    requires i < |os| && os[i].Emit?
    ensures var cs := Calls(os[..i + 1]); 1 <= |cs| && cs <= Calls(os)
  {
    CallsAppend(os[..i + 1], os[i + 1..]);
    assert os == os[..i + 1] + os[i + 1..];
    assert os[..i + 1][..i] == os[..i];
  }
}
