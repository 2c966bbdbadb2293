/** ini_parse_stream as it is written: every line is cut up in place, inside one 200-character
    buffer, by writing NULs into it. "Pointers" are indices, and a ghost string beside each pointer
    says which C string it points to. */
module IniParser {
  import opened CStrings
  import opened IniGrammar
  import opened IniReader

  /** In buffer a, pointer p points to the C string s. */
  ghost predicate StrAt(a: array<char>, p: nat, s: string)
    reads a
  {
    && p + |s| < a.Length
    && (forall j {:trigger a[j]} :: p <= j < p + |s| ==> a[j] == s[j - p] && a[j] != NUL)
    && a[p + |s|] == NUL
  }

  method StrLen(a: array<char>, p: nat, ghost s: string) returns (n: nat)
    requires StrAt(a, p, s)
    ensures n == |s|
  {
    n := 0;
    while a[p + n] != NUL
      invariant n <= |s|
      decreases |s| - n
    {
      n := n + 1;
    }
  }

  /** Blanks trailing whitespace with NULs. */
  method RStrip(a: array<char>, p: nat, ghost s: string)
    requires StrAt(a, p, s)
    modifies a
    ensures StrAt(a, p, RTrim(s))
    ensures forall j :: 0 <= j < a.Length && (j < p || p + |s| <= j) ==> a[j] == old(a[j])
  {
    var n := StrLen(a, p, s);
    var q := p + n;
    while q > p && IsSpace(a[q - 1])
      invariant p <= q <= p + |s| && a[q] == NUL
      invariant forall j :: 0 <= j < a.Length && (j < q || p + |s| <= j) ==> a[j] == old(a[j])
      invariant forall i :: q - p <= i < |s| ==> IsSpace(s[i])
    {
      q := q - 1;
      a[q] := NUL;
    }
    assert q - p == EndAt(s, |s|);
  }

  method LSkip(a: array<char>, p: nat, ghost s: string) returns (q: nat)
    requires StrAt(a, p, s)
    ensures q == p + |s| - |LTrim(s)| && StrAt(a, q, LTrim(s))
  {
    q := p;
    while a[q] != NUL && IsSpace(a[q])
      invariant p <= q <= p + |s|
      invariant forall i :: 0 <= i < q - p ==> IsSpace(s[i])
      decreases p + |s| - q
    {
      q := q + 1;
    }
    assert q - p == StartAt(s, 0);
  }

  method FindCharsOrComment(a: array<char>, p: nat, chars: string, ghost s: string) returns (q: nat)
    requires StrAt(a, p, s)
    ensures q == p + Find(s, chars, 0) && q < a.Length
  {
    var wasSpace := false;
    q := p;
    while a[q] != NUL && a[q] !in chars && !(wasSpace && a[q] == ';')
      invariant p <= q <= p + |s|
      invariant wasSpace == (q > p && IsSpace(s[q - p - 1]))
      invariant Find(s, chars, 0) == Find(s, chars, q - p)
      decreases p + |s| - q
    {
      wasSpace := IsSpace(a[q]);
      q := q + 1;
    }
  }

  /** Bounded copy that always ends in a NUL and does not pad. */
  method StrNCpy0(dest: array<char>, src: array<char>, p: nat, ghost s: string)
    requires dest != src && dest.Length > 0 && StrAt(src, p, s)
    modifies dest
    ensures StrAt(dest, 0, Cut(s, dest.Length - 1))
    ensures forall j :: |Cut(s, dest.Length - 1)| < j < dest.Length ==> dest[j] == old(dest[j])
  {
    var i := 0;
    while i < dest.Length - 1 && src[p + i] != NUL
      invariant i <= dest.Length - 1 && i <= |s|
      invariant forall j :: 0 <= j < i ==> dest[j] == s[j] && dest[j] != NUL
      invariant forall j :: i <= j < dest.Length ==> dest[j] == old(dest[j])
    {
      dest[i] := src[p + i];
      i := i + 1;
    }
    dest[i] := NUL;
  }

  /** The C string at p, as handed to the handler. */
  method Get(a: array<char>, p: nat, ghost s: string) returns (r: string)
    requires StrAt(a, p, s)
    ensures r == s
  {
    var n := StrLen(a, p, s);
    r := a[p..p + n];
  }

  /** A "[section]" line, start pointing to its text. */
  method HeaderInPlace(line: array<char>, section: array<char>, prevName: array<char>, start: nat,
                       ghost ctx: Context, ghost text: string)
    returns (outcome: Outcome)
    requires line != section && line != prevName && section != prevName
    requires section.Length == MAX_SECTION && prevName.Length == MAX_NAME
    requires |text| > 0 && text[0] == '[' && StrAt(line, start, text)
    requires StrAt(section, 0, ctx.section) && StrAt(prevName, 0, ctx.prevName)
    modifies line, section, prevName
    ensures var p := ParseHeader(ctx, text);
      && outcome == p.outcome
      && StrAt(section, 0, p.ctx.section) && StrAt(prevName, 0, p.ctx.prevName)
  {
    ghost var inner := text[1..];
    var end := FindCharsOrComment(line, start + 1, "]", inner);
    if line[end] == ']' {
      line[end] := NUL;
      StrNCpy0(section, line, start + 1, inner[..end - start - 1]);
      prevName[0] := NUL;
      outcome := Silent;
    } else {
      outcome := Malformed;
    }
  }

  /** The value of a pair line: cut an inline comment off, skip leading whitespace, strip the rest. */
  method TrimValue(line: array<char>, p: nat, ghost v: string) returns (q: nat)
    requires StrAt(line, p, v)
    modifies line
    ensures p <= q && StrAt(line, q, ValueOf(v))
    ensures forall j :: 0 <= j < p ==> line[j] == old(line[j])
  {
    var end := FindCharsOrComment(line, p, "", v);
    if line[end] != NUL {
      line[end] := NUL;
    }
    ghost var w := v[..end - p];
    assert StrAt(line, p, w);
    q := LSkip(line, p, w);
    RStrip(line, q, LTrim(w));
  }

  /** A name[=:]value line, start pointing to its text. */
  method PairInPlace(line: array<char>, section: array<char>, prevName: array<char>, start: nat,
                     ghost ctx: Context, ghost text: string)
    returns (outcome: Outcome)
    requires line != section && line != prevName && section != prevName
    requires prevName.Length == MAX_NAME
    requires StrAt(line, start, text)
    requires StrAt(section, 0, ctx.section) && StrAt(prevName, 0, ctx.prevName)
    modifies line, prevName
    ensures var p := ParsePair(ctx, text);
      && outcome == p.outcome
      && StrAt(section, 0, p.ctx.section) && StrAt(prevName, 0, p.ctx.prevName)
  {
    hide ValueOf, RTrim;
    var end := FindCharsOrComment(line, start, "=:", text);
    ghost var e := Find(text, "=:", 0);
    assert e < |text| <==> line[end] != NUL;
    if line[end] == '=' || line[end] == ':' {
      ghost var name, v := text[..e], text[e + 1..];
      line[end] := NUL;
      assert StrAt(line, start, name) && StrAt(line, end + 1, v);
      var value := SplitPair(line, start, end, name, v);
      StrNCpy0(prevName, line, start, RTrim(name));
      var sectionStr := Get(section, 0, ctx.section);
      var nameStr := Get(line, start, RTrim(name));
      var valueStr := Get(line, value, ValueOf(v));
      outcome := Emit(Call(sectionStr, nameStr, valueStr));
    } else {
      outcome := Malformed;
    }
  }

  /** After the separator at end has become a NUL: strip the name before it, trim the value after it. */
  method SplitPair(line: array<char>, start: nat, end: nat, ghost name: string, ghost v: string)
    returns (value: nat)
    requires StrAt(line, start, name) && start + |name| == end && StrAt(line, end + 1, v)
    modifies line
    ensures StrAt(line, start, RTrim(name)) && StrAt(line, value, ValueOf(v))
  {
    RStrip(line, start, name);
    value := TrimValue(line, end + 1, v);
  }

  /** The start of a line: byte order mark skipped, trailing and leading whitespace gone. */
  method TextStart(line: array<char>, lineno: nat, ghost s: string) returns (start: nat)
    requires StrAt(line, 0, s)
    modifies line
    ensures var body := RTrim(StripBom(lineno == 1, s));
      && StrAt(line, start, LTrim(body))
      && (start > 0 <==> HasBom(lineno == 1, s) || |LTrim(body)| < |body|)
  {
    start := 0;
    if lineno == 1 && line[0] == BOM[0] && line[1] == BOM[1] && line[2] == BOM[2] {
      assert s[..3] == BOM;
      start := 3;
    } else {
      assert !HasBom(lineno == 1, s) by {
        assert BOM <= s ==> s[..3] == BOM && s[0] == BOM[0] && s[1] == BOM[1] && s[2] == BOM[2];
      }
    }
    assert StrAt(line, start, StripBom(lineno == 1, s));
    RStrip(line, start, StripBom(lineno == 1, s));
    start := LSkip(line, start, RTrim(StripBom(lineno == 1, s)));
  }

  /** Decide what the line is, start pointing to its text, which is indented unless start is 0. */
  method TextInPlace(line: array<char>, section: array<char>, prevName: array<char>, start: nat,
                     ghost ctx: Context, ghost text: string)
    returns (outcome: Outcome)
    requires line != section && line != prevName && section != prevName
    requires section.Length == MAX_SECTION && prevName.Length == MAX_NAME
    requires StrAt(line, start, text)
    requires StrAt(section, 0, ctx.section) && StrAt(prevName, 0, ctx.prevName)
    modifies line, section, prevName
    ensures var p := ParseText(ctx, start > 0, text);
      && outcome == p.outcome
      && StrAt(section, 0, p.ctx.section) && StrAt(prevName, 0, p.ctx.prevName)
  {
    assert |text| == 0 <==> line[start] == NUL;
    if line[start] == NUL || line[start] in ";#" {
      outcome := Silent;
    } else if prevName[0] != NUL && start > 0 {
      var s := Get(section, 0, ctx.section);
      var n := Get(prevName, 0, ctx.prevName);
      var v := Get(line, start, text);
      outcome := Emit(Call(s, n, v));
    } else if line[start] == '[' {
      outcome := HeaderInPlace(line, section, prevName, start, ctx, text);
    } else {
      outcome := PairInPlace(line, section, prevName, start, ctx, text);
    }
  }

  lemma {:induction false} ChunkIsString(a: array<char>, text: string, i: nat, e: nat)
    requires i <= e <= |text| && Holds(a, text, i, e)
    ensures StrAt(a, 0, CStr(text[i..e]))
  {
  }

  /** One round of the loop of ini_parse_stream, up to the handler call. */
  method ParseInPlace(line: array<char>, section: array<char>, prevName: array<char>, lineno: nat,
                      ghost ctx: Context, ghost chunk: string)
    returns (outcome: Outcome)
    requires line != section && line != prevName && section != prevName
    requires section.Length == MAX_SECTION && prevName.Length == MAX_NAME
    requires StrAt(line, 0, CStr(chunk))
    requires StrAt(section, 0, ctx.section) && StrAt(prevName, 0, ctx.prevName)
    modifies line, section, prevName
    ensures var p := ParseLine(ctx, lineno == 1, chunk);
      && outcome == p.outcome
      && StrAt(section, 0, p.ctx.section) && StrAt(prevName, 0, p.ctx.prevName)
  {
    ghost var text := LTrim(RTrim(StripBom(lineno == 1, CStr(chunk))));
    var start := TextStart(line, lineno, CStr(chunk));
    outcome := TextInPlace(line, section, prevName, start, ctx, text);
  }

  /** Call the handler if the line asks for it, and keep the number of the first bad line. */
  method Account(outcome: Outcome, calls: seq<Call>, error: nat, lineno: nat, handler: Handler,
                 ghost done: seq<Outcome>)
    returns (calls': seq<Call>, error': nat)
    requires lineno == |done| + 1 && calls == Calls(done) && error == Result(done, handler)
    ensures calls' == Calls(done + [outcome]) && error' == Result(done + [outcome], handler)
  {
    ghost var next := done + [outcome];
    assert next[..|done|] == done && next[..|next|] == next;
    calls', error' := calls, error;
    match outcome {
      case Silent =>
      case Emit(c) =>
        calls' := calls + [c];
        if !handler(calls') && error == 0 {
          error' := lineno;
        }
      case Malformed =>
        if error == 0 {
          error' := lineno;
        }
    }
  }

  /** After the outcomes done, the parser is in state ctx and has read text up to i. */
  ghost predicate Progress(text: string, done: seq<Outcome>, ctx: Context, i: nat)
  {
    i <= |text| && Outcomes(text) == done + OutcomesFrom(ctx, |done| == 0, text, i)
  }

  lemma {:induction false} ProgressStart(text: string)
    ensures Progress(text, [], START, 0)
  {
  }

  lemma {:induction false} ProgressStep(text: string, done: seq<Outcome>, ctx: Context, i: nat)
    requires Progress(text, done, ctx, i) && i < |text|
    ensures var e := LineEnd(text, i);
      var p := ParseLine(ctx, |done| == 0, text[i..e]);
      Progress(text, done + [p.outcome], p.ctx, e)
  {
    hide ParseLine, LineEnd;
  }

  lemma {:induction false} ProgressEnd(text: string, done: seq<Outcome>, ctx: Context)
    requires Progress(text, done, ctx, |text|)
    ensures done == Outcomes(text)
  {
  }

  /** One round of the loop of ini_parse_stream, on the line text[i..e] that line holds. */
  method Round(line: array<char>, section: array<char>, prevName: array<char>, lineno: nat,
               calls: seq<Call>, error: nat, handler: Handler,
               ghost text: string, ghost i: nat, ghost e: nat, ghost done: seq<Outcome>, ghost ctx: Context)
    returns (calls': seq<Call>, error': nat, ghost done': seq<Outcome>, ghost ctx': Context)
    requires line != section && line != prevName && section != prevName
    requires section.Length == MAX_SECTION && prevName.Length == MAX_NAME
    requires i < |text| && e == LineEnd(text, i) && Holds(line, text, i, e)
    requires StrAt(section, 0, ctx.section) && StrAt(prevName, 0, ctx.prevName)
    requires lineno == |done| + 1 && Progress(text, done, ctx, i)
    requires calls == Calls(done) && error == Result(done, handler)
    modifies line, section, prevName
    ensures StrAt(section, 0, ctx'.section) && StrAt(prevName, 0, ctx'.prevName)
    ensures lineno == |done'| && Progress(text, done', ctx', e)
    ensures calls' == Calls(done') && error' == Result(done', handler)
  {
    hide ParseLine, Progress, CStr, Calls, Result, Holds, ChunkEnd;
    ghost var chunk := text[i..e];
    ctx' := ParseLine(ctx, lineno == 1, chunk).ctx;
    ProgressStep(text, done, ctx, i);
    ChunkIsString(line, text, i, e);
    var outcome := ParseInPlace(line, section, prevName, lineno, ctx, chunk);
    calls', error' := Account(outcome, calls, error, lineno, handler, done);
    done' := done + [outcome];
  }

  /** ini_parse_stream: the calls it makes and the number it returns, for any text and handler. */
  method ParseStream(text: string, handler: Handler) returns (error: nat, calls: seq<Call>)
    ensures calls == Calls(Outcomes(text)) && error == Result(Outcomes(text), handler)
  {
    hide Progress, Outcomes, Calls, Result, Holds, ChunkEnd;
    var line := new char[MAX_LINE];
    var section := new char[MAX_SECTION];
    var prevName := new char[MAX_NAME];
    section[0], prevName[0] := NUL, NUL;
    var lineno: nat := 0;
    error, calls := 0, [];
    var reader := new StringReader(text);

    ghost var done: seq<Outcome>, ctx: Context, i: nat := [], START, 0;
    ProgressStart(text);
    EmptyRun(handler);
    var more := reader.Read(line, MAX_LINE);
    while more
      invariant reader.Valid() && reader.text == text
      invariant StrAt(section, 0, ctx.section) && StrAt(prevName, 0, ctx.prevName)
      invariant i <= |text| && lineno == |done| && Progress(text, done, ctx, i)
      invariant calls == Calls(done) && error == Result(done, handler)
      invariant more == (i < |text|)
      invariant more ==> reader.ptr == LineEnd(text, i) && Holds(line, text, i, reader.ptr)
      decreases |text| - i
    {
      lineno := lineno + 1;
      calls, error, done, ctx := Round(line, section, prevName, lineno, calls, error, handler,
                                       text, i, reader.ptr, done, ctx);
      i := reader.ptr;
      more := reader.Read(line, MAX_LINE);
    }
    ProgressEnd(text, done, ctx);
  }

  lemma {:induction false} EmptyRun(handler: Handler)
    ensures Calls([]) == [] && Result([], handler) == 0
  {
  }
}
