/** The line grammar of ini_parse_stream as pure functions: what one chunk of input means in a
    parsing context, what a list of chunks means, and what number the parser returns. */
module IniGrammar {
  import opened CStrings
  import opened IniReader

  const MAX_LINE := 200
  const MAX_SECTION := 50
  const MAX_NAME := 50
  const BOM := "\U{EF}\U{BB}\U{BF}"

  /** One call of the handler. */
  datatype Call = Call(section: string, name: string, value: string)

  /** What the parser carries from line to line. */
  datatype Context = Context(section: string, prevName: string)

  const START := Context("", "")

  datatype Outcome = Silent | Emit(call: Call) | Malformed

  datatype Parsed = Parsed(ctx: Context, outcome: Outcome)

  predicate HasBom(first: bool, s: string) {
    first && BOM <= s
  }

  function StripBom(first: bool, s: string): string {
    if HasBom(first, s) then s[3..] else s
  }

  predicate IsComment(text: string) {
    |text| == 0 || text[0] in ";#"
  }

  /** What one chunk means: its C string, byte order mark and surrounding whitespace removed. A line is
      indented when its text does not start at the beginning of the buffer. */
  function ParseLine(ctx: Context, first: bool, chunk: string): (p: Parsed) {
    var s := CStr(chunk);
    var body := RTrim(StripBom(first, s));
    var text := LTrim(body);
    ParseText(ctx, HasBom(first, s) || |text| < |body|, text)
  }

  /** The comment test comes first, then the continuation test, then the section test. */
  function ParseText(ctx: Context, indented: bool, text: string): (p: Parsed) {
    if IsComment(text) then Parsed(ctx, Silent)
    else if |ctx.prevName| > 0 && indented then
      Parsed(ctx, Emit(Call(ctx.section, ctx.prevName, text)))
    else if text[0] == '[' then ParseHeader(ctx, text)
    else ParsePair(ctx, text)
  }

  function ParseHeader(ctx: Context, text: string): (p: Parsed)
    requires |text| > 0 && text[0] == '['
  {
    var inner := text[1..];
    var e := Find(inner, "]", 0);
    if e < |inner| && inner[e] == ']' then
      Parsed(Context(Cut(inner[..e], MAX_SECTION - 1), ""), Silent)
    else
      Parsed(ctx, Malformed)
  }

  predicate IsSeparator(c: char) {
    c == '=' || c == ':'
  }

  function ParsePair(ctx: Context, text: string): (p: Parsed)
  {
    var e := Find(text, "=:", 0);
    if e < |text| && IsSeparator(text[e]) then
      var name := RTrim(text[..e]);
      Parsed(ctx.(prevName := Cut(name, MAX_NAME - 1)),
             Emit(Call(ctx.section, name, ValueOf(text[e + 1..]))))
    else
      Parsed(ctx, Malformed)
  }

  /** The value part of a pair line: inline comment removed, then trimmed. */
  function ValueOf(v: string): string {
    RTrim(LTrim(v[..Find(v, "", 0)]))
  }

  /** One outcome per chunk. */
  function Trace(ctx: Context, first: bool, chunks: seq<string>): (os: seq<Outcome>)
    ensures |os| == |chunks|
    decreases |chunks|
  {
    if chunks == [] then []
    else
      var p := ParseLine(ctx, first, chunks[0]);
      [p.outcome] + Trace(p.ctx, false, chunks[1..])
  }

  function ContextAfter(ctx: Context, first: bool, chunks: seq<string>): Context
    decreases |chunks|
  {
    if chunks == [] then ctx
    else ContextAfter(ParseLine(ctx, first, chunks[0]).ctx, false, chunks[1..])
  }

  /** The handler calls of a list of outcomes, in order. */
  function Calls(os: seq<Outcome>): (cs: seq<Call>)
    ensures |cs| <= |os|
  {
    if os == [] then []
    else
      var n := |os| - 1;
      Calls(os[..n]) + (if os[n].Emit? then [os[n].call] else [])
  }

  /** A handler may remember every call it has seen: its answer to the latest call is a function
      of the whole call sequence. False stands for the C result 0, the only one that is an error. */
  type Handler = seq<Call> -> bool

  /** Chunk i is an error: malformed, or its handler call was answered with 0. */
  predicate Bad(os: seq<Outcome>, h: Handler, i: nat)
    requires i < |os|
  {
    os[i].Malformed? || (os[i].Emit? && !h(Calls(os[..i + 1])))
  }

  /** The parser's result: the variable error after the last chunk, which is only set while 0. */
  function Result(os: seq<Outcome>, h: Handler): (r: nat)
    ensures r <= |os|
  {
    if os == [] then 0
    else
      var n := |os| - 1;
      var r := Result(os[..n], h);
      if r != 0 then r else if Bad(os, h, n) then n + 1 else 0
  }

  /** Where the line that starts at i ends for ini_parse_stream: a chunk of at most 199 characters. */
  function LineEnd(text: string, i: nat): (e: nat)
    requires i <= |text|
    ensures i <= e <= |text| && (i < |text| ==> i < e)
  {
    ChunkEnd(text, i, i + MAX_LINE - 1)
  }

  /** The outcomes of text from position i on, one per chunk. */
  function OutcomesFrom(ctx: Context, first: bool, text: string, i: nat): (os: seq<Outcome>)
    requires i <= |text|
    decreases |text| - i
  {
    if i == |text| then []
    else
      var e := LineEnd(text, i);
      var p := ParseLine(ctx, first, text[i..e]);
      [p.outcome] + OutcomesFrom(p.ctx, false, text, e)
  }

  function Outcomes(text: string): seq<Outcome> {
    OutcomesFrom(START, true, text, 0)
  }

  lemma {:induction false} OutcomesAreTrace(ctx: Context, first: bool, text: string, i: nat)
    requires i <= |text|
    ensures OutcomesFrom(ctx, first, text, i) == Trace(ctx, first, Chunks(text, i, MAX_LINE - 1))
    decreases |text| - i
  {
    hide ParseLine;
    if i == |text| {
    } else {
      var e := LineEnd(text, i);
      OutcomesAreTrace(ParseLine(ctx, first, text[i..e]).ctx, false, text, e);
    }
  }
}
