/** Which names, values, continuation lines and section titles survive being printed on a line and
    parsed again: exactly the well-formed ones. */
module IniLines {
  import opened CStrings
  import opened IniGrammar

  /** No ';' right after whitespace, which would start an inline comment. */
  predicate NoInlineComment(s: string) {
    forall i :: 1 <= i < |s| && IsSpace(s[i - 1]) ==> s[i] != ';'
  }

  predicate Trimmed(s: string) {
    |s| > 0 ==> !IsSpace(s[0]) && !IsSpace(s[|s| - 1])
  }

  predicate NameOk(n: string) {
    && |n| > 0 && Trimmed(n) && NoInlineComment(n)
    && n[0] !in ";#["
    && forall i :: 0 <= i < |n| ==> n[i] !in "=:"
  }

  predicate ValueOk(v: string) {
    Trimmed(v) && NoInlineComment(v) && (|v| > 0 ==> v[0] != ';')
  }

  predicate ContinuationOk(c: string) {
    |c| > 0 && Trimmed(c) && c[0] !in ";#"
  }

  predicate TitleOk(t: string) {
    |t| <= 49 && ']' !in t && NoInlineComment(t)
  }

  function PairLine(name: string, value: string): string {
    name + " = " + value
  }

  function ContinuationLine(c: string): string {
    "  " + c
  }

  function HeaderLine(title: string): string {
    "[" + title + "]"
  }

  lemma {:induction false} CleanCStr(s: string)
    requires NUL !in s
    ensures CStr(s) == s
  {
  }

  /** Parsing a clean line: trailing whitespace ends at e, leading whitespace at b. */
  lemma {:induction false} TextOf(ctx: Context, line: string, b: nat, e: nat)
    requires NUL !in line && b <= e <= |line|
    requires forall j :: 0 <= j < b ==> IsSpace(line[j])
    requires forall j :: e <= j < |line| ==> IsSpace(line[j])
    requires b < e ==> !IsSpace(line[b]) && !IsSpace(line[e - 1])
    requires b == e ==> b == 0
    ensures ParseLine(ctx, false, line) == ParseText(ctx, b > 0, line[b..e])
  {
    hide ParseText;
    CleanCStr(line);
    assert EndAt(line, |line|) == e;
    var body := line[..e];
    assert RTrim(line) == body;
    assert StartAt(body, 0) == b;
    assert LTrim(body) == line[b..e];
  }

  /** A header line means its title exactly when the title is well formed. */
  lemma {:induction false} HeaderRoundTrip(ctx: Context, first: bool, title: string)
    requires NUL !in title
    ensures ParseLine(ctx, first, HeaderLine(title) + "\n") == Parsed(Context(title, ""), Silent)
       <==> TitleOk(title)
  {
    hide ParseText;
    var line := HeaderLine(title) + "\n";
    assert line[0] == '[' && !HasBom(first, line);
    CleanCStr(line);
    assert ParseLine(ctx, first, line) == ParseLine(ctx, false, line);
    var text := HeaderLine(title);
    TextOf(ctx, line, 0, |text|);
    assert line[0..|text|] == text;
    HeaderText(ctx, title);
  }

  lemma {:induction false} HeaderText(ctx: Context, title: string)
    ensures ParseText(ctx, false, HeaderLine(title)) == Parsed(Context(title, ""), Silent)
       <==> TitleOk(title)
  {
    var text := HeaderLine(title);
    var inner := text[1..];
    assert inner == title + "]";
    var e := Find(inner, "]", 0);
    assert StopsAt(inner, "]", |title|);
    NoStop(title, inner, "]");
    assert e == |title| <==> ']' !in title && NoInlineComment(title);
    assert inner[..|title|] == title;
  }

  /** A prefix p of s holds no stop exactly when it holds none of chars and no inline comment. */
  lemma {:induction false} NoStop(p: string, s: string, chars: string)
    requires p <= s
    ensures (forall j :: 0 <= j < |p| ==> !StopsAt(s, chars, j))
       <==> NoInlineComment(p) && forall j :: 0 <= j < |p| ==> p[j] !in chars
  {
    assert forall j :: 0 <= j < |p| ==> s[j] == p[j];
    assert forall j :: 0 <= j < |p| && p[j] in chars ==> StopsAt(s, chars, j);
    assert forall j :: 1 <= j < |p| && IsSpace(p[j - 1]) && p[j] == ';' ==> StopsAt(s, chars, j);
    if NoInlineComment(p) && forall j :: 0 <= j < |p| ==> p[j] !in chars {
      forall j | 0 <= j < |p|
        ensures !StopsAt(s, chars, j)
      {
        assert s[j] == p[j];
        assert j > 0 ==> s[j - 1] == p[j - 1];
      }
    }
  }

  /** An indented line after a pair means its text exactly when the text is well formed. */
  lemma {:induction false} ContinuationRoundTrip(ctx: Context, c: string)
    requires NUL !in c && |ctx.prevName| > 0
    ensures ParseLine(ctx, false, ContinuationLine(c) + "\n")
         == Parsed(ctx, Emit(Call(ctx.section, ctx.prevName, c)))
       <==> ContinuationOk(c)
  {
    var line := ContinuationLine(c) + "\n";
    CleanCStr(line);
    if ContinuationOk(c) {
      TextOf(ctx, line, 2, 2 + |c|);
      assert line[2..2 + |c|] == c;
    }
  }

  /** A name that a pair line gives back: well formed, or empty as long as there is no previous name, whose
      continuation the line would be. */
  predicate PairNameOk(ctx: Context, name: string) {
    NameOk(name) || (|name| == 0 && |ctx.prevName| == 0)
  }

  /** A pair line means its name and value exactly when both are well formed. */
  lemma {:induction false} PairRoundTrip(ctx: Context, name: string, value: string)
    requires NUL !in name && NUL !in value
    ensures ParseLine(ctx, false, PairLine(name, value) + "\n")
         == Parsed(ctx.(prevName := Cut(name, MAX_NAME - 1)), Emit(Call(ctx.section, name, value)))
       <==> PairNameOk(ctx, name) && ValueOk(value)
  {
    hide ParseLine;
    if PairNameOk(ctx, name) && ValueOk(value) {
      PairForward(ctx, name, value);
    }
    if ParseLine(ctx, false, PairLine(name, value) + "\n").outcome == Emit(Call(ctx.section, name, value)) {
      PairBackward(ctx, name, value);
    }
  }

  /** The text of a pair line: the space after the '=' goes when there is no value. */
  function PairText(name: string, value: string): string {
    if |value| == 0 then name + " =" else PairLine(name, value)
  }

  /** What ParseText does with a text that is no comment, continuation or header. */
  lemma {:induction false} PairParts(ctx: Context, indented: bool, text: string, e: nat)
    requires |text| > 0 && text[0] !in ";#[" && e < |text|
    requires Find(text, "=:", 0) == e && IsSeparator(text[e])
    requires indented ==> |ctx.prevName| == 0
    ensures var name := RTrim(text[..e]);
      ParseText(ctx, indented, text)
        == Parsed(ctx.(prevName := Cut(name, MAX_NAME - 1)), Emit(Call(ctx.section, name, ValueOf(text[e + 1..]))))
  {
    hide RTrim, ValueOf, Find;
    assert !IsComment(text) && text[0] != '[';
  }

  /** What stands behind the separator of a pair line. */
  function ValuePart(value: string): string {
    if |value| == 0 then "" else " " + value
  }

  /** The text of a pair line without the space that an empty name leaves in front. */
  function VisiblePair(name: string, value: string): (text: string)
    ensures |text| > 0
  {
    if |name| == 0 then PairText(name, value)[1..] else PairText(name, value)
  }

  /** Trimming a pair line. */
  lemma {:induction false} PairTextOf(ctx: Context, name: string, value: string)
    requires NUL !in name && NUL !in value && Trimmed(name) && Trimmed(value)
    ensures ParseLine(ctx, false, PairLine(name, value) + "\n") == ParseText(ctx, |name| == 0, VisiblePair(name, value))
  {
    hide ParseLine, ParseText;
    var line, text := PairLine(name, value) + "\n", PairText(name, value);
    var b := if |name| == 0 then 1 else 0;
    assert text <= line && (|name| > 0 ==> line[0] == name[0]);
    TextOf(ctx, line, b, |text|);
    assert line[b..|text|] == VisiblePair(name, value);
  }

  /** The parts of that text. */
  lemma {:induction false} VisibleParts(ctx: Context, name: string, value: string)
    requires PairNameOk(ctx, name)
    ensures var text := VisiblePair(name, value);
      var e := Find(text, "=:", 0);
      && text[0] !in ";#[" && e < |text| && text[e] == '=' && RTrim(text[..e]) == name
      && text[e + 1..] == ValuePart(value)
  {
    hide RTrim;
    var text := VisiblePair(name, value);
    if |name| == 0 {
      assert text[0] == '=' == "=:"[0] && StopsAt(text, "=:", 0);
      NothingToTrim(text[..0]);
    } else {
      FindSeparator(name, text);
      assert text[..|name| + 1] == name + " ";
      TrimName(name);
    }
  }

  lemma {:induction false} NothingToTrim(s: string)
    requires |s| == 0
    ensures RTrim(s) == s
  {
  }

  /** A pair line gives back its name, and of its value what remains of the inline comment. */
  lemma {:induction false} PairMeans(ctx: Context, name: string, value: string)
    requires NUL !in name && NUL !in value && PairNameOk(ctx, name) && Trimmed(value)
    ensures ParseLine(ctx, false, PairLine(name, value) + "\n")
         == Parsed(ctx.(prevName := Cut(name, MAX_NAME - 1)), Emit(Call(ctx.section, name, ValueOf(ValuePart(value)))))
  {
    hide ParseLine, ParseText, ValueOf, RTrim, VisiblePair, ValuePart, Find;
    PairTextOf(ctx, name, value);
    VisibleParts(ctx, name, value);
    PairParts(ctx, |name| == 0, VisiblePair(name, value), Find(VisiblePair(name, value), "=:", 0));
  }

  lemma {:induction false} PairForward(ctx: Context, name: string, value: string)
    requires NUL !in name && NUL !in value && PairNameOk(ctx, name) && ValueOk(value)
    ensures ParseLine(ctx, false, PairLine(name, value) + "\n")
         == Parsed(ctx.(prevName := Cut(name, MAX_NAME - 1)), Emit(Call(ctx.section, name, value)))
  {
    hide ParseLine, ValueOf;
    PairMeans(ctx, name, value);
    ValueForward(value);
  }

  lemma {:induction false} FindSeparator(name: string, text: string)
    requires NameOk(name) && name + " =" <= text
    ensures Find(text, "=:", 0) == |name| + 1 && text[|name| + 1] == '='
  {
    var p := name + " ";
    assert (name + " =")[..|p|] == p;
    assert text[|p|] == (name + " =")[|p|] == "=:"[0];
    assert NoInlineComment(p) && forall j :: 0 <= j < |p| ==> p[j] !in "=:" by {
      assert forall j :: 0 <= j < |p| ==> p[j] == if j < |name| then name[j] else ' ';
    }
    NoStop(p, text, "=:");
    assert StopsAt(text, "=:", |p|);
  }

  lemma {:induction false} TrimName(name: string)
    requires |name| > 0 && Trimmed(name)
    ensures RTrim(name + " ") == name
  {
    var s := name + " ";
    assert EndAt(s, |s|) == |name|;
  }

  lemma {:induction false} ValueForward(value: string)
    requires ValueOk(value)
    ensures ValueOf(ValuePart(value)) == value
  {
    if |value| > 0 {
      var v := " " + value;
      assert Find(v, "", 0) == |v| by {
        NoStop(v, v, "");
      }
      assert v[..|v|] == v && StartAt(v, 0) == 1 && v[1..] == value;
      assert EndAt(value, |value|) == |value|;
    }
  }

  /** Whatever name and value a pair text yields, they are well formed, except that the value may start
      with the ';' that follows the separator directly. */
  lemma {:induction false} PairPartsOk(ctx: Context, text: string, name: string, value: string)
    requires !IsComment(text) && text[0] != '[' && !IsSpace(text[0])
    requires ParsePair(ctx, text).outcome == Emit(Call(ctx.section, name, value))
    ensures |name| > 0 ==> NameOk(name)
    ensures Trimmed(value) && NoInlineComment(value)
  {
    hide NameOk, Trimmed, NoInlineComment, RTrim, ValueOf;
    var e := Find(text, "=:", 0);
    NamePartOk(text, e);
    ValuePartOk(text[e + 1..]);
  }

  lemma {:induction false} NamePartOk(text: string, e: nat)
    requires !IsComment(text) && text[0] != '[' && !IsSpace(text[0])
    requires e < |text| && Find(text, "=:", 0) == e
    ensures var name := RTrim(text[..e]); |name| > 0 ==> NameOk(name)
  {
    NoStop(text[..e], text, "=:");
  }

  lemma {:induction false} ValuePartOk(v: string)
    ensures Trimmed(ValueOf(v)) && NoInlineComment(ValueOf(v))
  {
    var w := v[..Find(v, "", 0)];
    NoStop(w, v, "");
  }

  /** The text of a pair line is never just its value, so the line was not taken as a continuation. */
  lemma {:induction false} LongerThanValue(name: string, value: string)
    ensures LTrim(RTrim(PairLine(name, value) + "\n")) != value
  {
    var line := PairLine(name, value) + "\n";
    var k := EndAt(line, |line|);
    var body := line[..k];
    var b := StartAt(body, 0);
    assert line[|name| + 1] == '=' && k >= |name| + 2 && b <= |name| + 1;
    assert |value| > 0 && !IsSpace(value[|value| - 1]) ==> !IsSpace(line[|name| + 2 + |value|]);
  }

  /** A value that starts with ';' is lost: the space before it makes it a comment. */
  lemma {:induction false} SemicolonLost(ctx: Context, name: string, value: string)
    requires NUL !in name && NUL !in value && PairNameOk(ctx, name) && Trimmed(value) && |value| > 0 && value[0] == ';'
    ensures ParseLine(ctx, false, PairLine(name, value) + "\n").outcome == Emit(Call(ctx.section, name, ""))
  {
    hide ParseLine, ValueOf;
    PairMeans(ctx, name, value);
    SemicolonValue(value);
  }

  lemma {:induction false} SemicolonValue(value: string)
    requires |value| > 0 && value[0] == ';'
    ensures ValueOf(" " + value) == ""
  {
    var v := " " + value;
    assert StopsAt(v, "", 1) && !StopsAt(v, "", 0);
    assert Find(v, "", 0) == 1;
    assert StartAt(v[..1], 0) == 1;
  }

  lemma {:induction false} PairBackward(ctx: Context, name: string, value: string)
    requires NUL !in name && NUL !in value
    requires ParseLine(ctx, false, PairLine(name, value) + "\n").outcome == Emit(Call(ctx.section, name, value))
    ensures PairNameOk(ctx, name) && ValueOk(value)
  {
    hide ParsePair, LTrim, RTrim;
    var line := PairLine(name, value) + "\n";
    CleanCStr(line);
    LongerThanValue(name, value);
    TrimmedText(line);
    PairPartsOk(ctx, LTrim(RTrim(line)), name, value);
    if |name| == 0 {
      EmptyNameIndents(value);
    }
    if |value| > 0 && value[0] == ';' {
      SemicolonLost(ctx, name, value);
    }
  }

  lemma {:induction false} EmptyNameIndents(value: string)
    ensures |LTrim(RTrim(PairLine("", value) + "\n"))| < |RTrim(PairLine("", value) + "\n")|
  {
    var line := PairLine("", value) + "\n";
    assert line[0] == ' ' && line[1] == '=' && EndAt(line, |line|) >= 2;
  }

  lemma {:induction false} TrimmedText(line: string)
    ensures var t := LTrim(RTrim(line)); |t| > 0 ==> !IsSpace(t[0])
  {
  }
}
