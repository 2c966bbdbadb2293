/** Every line by its shape, in literal characters: for each way a line can be laid out, padding, comments and
    separators included, what the parser makes of it. */
module IniAnyLine {
  import opened CStrings
  import opened IniReader
  import opened IniGrammar
  import opened IniLines
  import opened IniTheorems

  /** What isspace accepts in the "C" locale, character by character (section 7.4.1.10 of ISO/IEC 9899:2011). */
  predicate White(c: char) {
    c == ' ' || c == '\t' || c == '\n' || c == '\U{0B}' || c == '\U{0C}' || c == '\r'
  }

  lemma {:induction false} SpacesAreWhite(c: char)
    ensures IsSpace(c) <==> White(c)
  {
  }

  predicate Blank(s: string) {
    forall i :: 0 <= i < |s| ==> White(s[i])
  }

  /** Something to see, with no whitespace around it. */
  predicate Bare(s: string) {
    |s| > 0 && !White(s[0]) && !White(s[|s| - 1])
  }

  /** A ';' right after whitespace. */
  predicate HasInlineComment(s: string) {
    exists i :: 1 <= i < |s| && s[i] == ';' && White(s[i - 1])
  }

  predicate IsMark(s: string) {
    s == "\U{EF}\U{BB}\U{BF}"
  }

  /** How a chunk is laid out: perhaps a byte order mark on line 1, whitespace, the text, whitespace, and
      perhaps a NUL and anything behind it. */
  predicate LaidOut(first: bool, mark: string, before: string, text: string, after: string, tail: string) {
    && (if |mark| > 0 then first && IsMark(mark) else !first || |before| + |text| + |after| < 3 || !IsMark((before + text + after)[..3]))
    && Blank(before) && Blank(after) && (Bare(text) || |text| == |after| == 0)
    && '\0' !in before + text + after
    && (|tail| > 0 ==> tail[0] == '\0')
  }

  /** Only the text counts, and whether it is indented; a byte order mark indents it. */
  lemma {:induction false} OnlyTextCounts(ctx: Context, first: bool, mark: string, before: string, text: string, after: string, tail: string)
    requires LaidOut(first, mark, before, text, after, tail)
    ensures ParseLine(ctx, first, mark + before + text + after + tail) == ParseText(ctx, |mark| > 0 || |before| > 0, text)
  {
    hide ParseHeader, ParsePair;
    var body := before + text + after;
    CutAtNul(mark + body, tail);
    assert mark + before + text + after == mark + body;
    assert StripBom(first, mark + body) == body && HasBom(first, mark + body) == (|mark| > 0) by {
      MarkOrNot(first, mark, body);
    }
    TrimBoth(before, text, after);
  }

  lemma {:induction false} CutAtNul(s: string, tail: string)
    requires '\0' !in s && (|tail| > 0 ==> tail[0] == '\0')
    ensures CStr(s + tail) == s
  {
    var n := NulAt(s + tail, 0);
    assert forall j :: 0 <= j < |s| ==> (s + tail)[j] == s[j];
    assert |tail| > 0 ==> (s + tail)[|s|] == tail[0];
    assert n == |s|;
  }

  lemma {:induction false} MarkOrNot(first: bool, mark: string, body: string)
    requires if |mark| > 0 then first && IsMark(mark) else !first || |body| < 3 || !IsMark(body[..3])
    ensures HasBom(first, mark + body) <==> |mark| > 0
    ensures StripBom(first, mark + body) == body
  {
    if |mark| > 0 {
      assert (mark + body)[3..] == body;
    } else {
      assert mark + body == body;
      assert BOM <= body ==> body[..3] == BOM;
    }
  }

  lemma {:induction false} TrimBehind(s: string, after: string)
    requires Blank(after) && (|s| > 0 ==> !White(s[|s| - 1]))
    ensures RTrim(s + after) == s
  {
    var all := s + after;
    assert forall j :: |s| <= j < |all| ==> all[j] == after[j - |s|];
    assert |s| > 0 ==> all[|s| - 1] == s[|s| - 1];
    assert EndAt(all, |all|) == |s|;
  }

  lemma {:induction false} TrimBefore(before: string, s: string)
    requires Blank(before) && (|s| > 0 ==> !White(s[0]))
    ensures LTrim(before + s) == s
  {
    var all := before + s;
    assert forall j :: 0 <= j < |before| ==> all[j] == before[j];
    assert |s| > 0 ==> all[|before|] == s[0];
    assert StartAt(all, 0) == |before|;
  }

  lemma {:induction false} TrimBoth(before: string, text: string, after: string)
    requires Blank(before) && Blank(after) && (Bare(text) || |text| == |after| == 0)
    ensures LTrim(RTrim(before + text + after)) == text
    ensures |text| > 0 ==> |RTrim(before + text + after)| == |before| + |text|
  {
    hide LTrim, RTrim, White;
    if |text| == 0 {
      assert before + text + after == "" + before;
      TrimBehind("", before);
      TrimBefore("", "");
      assert "" + "" == "";
    } else {
      TrimBehind(before + text, after);
      TrimBefore(before, text);
    }
  }

  // ----- the five forms of a line -----

  /** Nothing to see, or a comment. */
  predicate CommentText(text: string) {
    |text| == 0 || text[0] == ';' || text[0] == '#'
  }

  /** The first 49 characters. */
  function First49(s: string): string {
    if |s| <= 49 then s else s[..49]
  }

  lemma {:induction false} CommentForm(ctx: Context, indented: bool, text: string)
    requires CommentText(text)
    ensures ParseText(ctx, indented, text) == Parsed(ctx, Silent)
  {
  }

  lemma {:induction false} ContinuationForm(ctx: Context, indented: bool, text: string)
    requires !CommentText(text) && indented && |ctx.prevName| > 0
    ensures ParseText(ctx, indented, text) == Parsed(ctx, Emit(Call(ctx.section, ctx.prevName, text)))
  {
  }

  /** So any indent of whitespace makes a line a continuation, whatever whitespace follows. */
  lemma {:induction false} IndentContinues(ctx: Context, before: string, text: string, after: string)
    requires LaidOut(false, "", before, text, after, "") && |before| > 0 && !CommentText(text) && |ctx.prevName| > 0
    ensures ParseLine(ctx, false, before + text + after) == Parsed(ctx, Emit(Call(ctx.section, ctx.prevName, text)))
  {
    hide ParseLine, ParseText;
    OnlyTextCounts(ctx, false, "", before, text, after, "");
    assert "" + before + text + after + "" == before + text + after;
    ContinuationForm(ctx, true, text);
  }

  /** No inline comment starts in s, and none of chars is there. */
  predicate Clear(s: string, chars: string) {
    !HasInlineComment(s) && forall i :: 0 <= i < |s| ==> s[i] !in chars
  }

  /** A stop is at position e, and none before it. */
  lemma {:induction false} FindIs(s: string, chars: string, e: nat)
    requires e < |s| && s[e] in chars && Clear(s[..e], chars)
    ensures Find(s, chars, 0) == e
  {
    var p := s[..e];
    assert forall j :: 0 <= j < e ==> s[j] == p[j];
    assert StopsAt(s, chars, e);
    forall j | 0 <= j < e
      ensures !StopsAt(s, chars, j)
    {
      assert p[j] !in chars;
      assert j > 0 ==> p[j - 1] == s[j - 1];
    }
  }

  /** A '[', a title without ']' and inline comment, a ']', and anything behind it. */
  lemma {:induction false} HeaderForm(ctx: Context, indented: bool, title: string, rest: string)
    requires Clear(title, "]") && (indented ==> |ctx.prevName| == 0)
    ensures ParseText(ctx, indented, "[" + title + "]" + rest) == Parsed(Context(First49(title), ""), Silent)
  {
    hide Find, Clear;
    var text := "[" + title + "]" + rest;
    var inner := text[1..];
    assert inner == title + "]" + rest && inner[..|title|] == title;
    assert inner[|title|] == ']' == "]"[0];
    FindIs(inner, "]", |title|);
  }

  /** A '[' without such a title is malformed. */
  lemma {:induction false} BadHeaderForm(ctx: Context, indented: bool, text: string)
    requires |text| > 0 && text[0] == '[' && (indented ==> |ctx.prevName| == 0)
    requires forall e :: 1 <= e < |text| && text[e] == ']' ==> !Clear(text[1..e], "]")
    ensures ParseText(ctx, indented, text) == Parsed(ctx, Malformed)
  {
    hide Clear;
    var inner := text[1..];
    var e := Find(inner, "]", 0);
    NothingBefore(inner, "]", e);
    assert inner[..e] == text[1..e + 1];
    assert e < |inner| ==> inner[e] == text[e + 1];
  }

  lemma {:induction false} NothingBefore(s: string, chars: string, e: nat)
    requires e <= |s| && forall j :: 0 <= j < e ==> !StopsAt(s, chars, j)
    ensures Clear(s[..e], chars)
  {
    var p := s[..e];
    forall i | 1 <= i < e && White(p[i - 1])
      ensures p[i] != ';'
    {
      assert !StopsAt(s, chars, i);
    }
    forall i | 0 <= i < e
      ensures p[i] !in chars
    {
      assert !StopsAt(s, chars, i);
    }
  }

  /** What may follow a value: nothing, or an inline comment. */
  predicate Remark(padded: bool, space: string, comment: string) {
    Blank(space) && (if |comment| == 0 then |space| == 0 else comment[0] == ';' && (padded || |space| > 0))
  }

  /** A name, '=' or ':', a value, whitespace between them, and perhaps an inline comment. */
  predicate PairShape(name: string, pad: string, sep: char, pad': string, value: string, space: string, comment: string) {
    && (sep == '=' || sep == ':')
    && (Bare(name) || |name| == |pad| == 0) && Blank(pad) && Clear(name, "=:")
    && (|name| > 0 ==> !CommentText(name) && name[0] != '[')
    && (Bare(value) || |value| == |space| == 0) && Blank(pad') && Clear(value, "")
    && (|value| > 0 ==> !(value[0] == ';' && |pad'| > 0))
    && Remark(|value| == 0 && |pad'| > 0, space, comment)
  }

  /** A text of that shape gives exactly the name and the value. */
  lemma {:induction false} PairForm(ctx: Context, indented: bool, name: string, pad: string, sep: char, pad': string,
                                    value: string, space: string, comment: string)
    requires PairShape(name, pad, sep, pad', value, space, comment) && (indented ==> |ctx.prevName| == 0)
    ensures ParseText(ctx, indented, name + pad + [sep] + pad' + value + space + comment)
         == Parsed(ctx.(prevName := First49(name)), Emit(Call(ctx.section, name, value)))
  {
    hide Clear, Bare, Find, ValueOf, RTrim;
    var named := name + pad;
    var right := pad' + value + space + comment;
    var text := name + pad + [sep] + pad' + value + space + comment;
    assert text == named + [sep] + right;
    PadClear(name, pad);
    assert text[..|named|] == named && text[|named|] == sep && text[|named| + 1..] == right;
    assert sep == "=:"[0] || sep == "=:"[1];
    FindIs(text, "=:", |named|);
    TrimName(name, pad);
    RightOf(pad', value, space, comment);
    assert !CommentText(text) && text[0] != '[';
  }

  /** A separator in text, with no inline comment and no other separator before it. */
  predicate SeparatorAt(text: string, e: nat) {
    e < |text| && (text[e] == '=' || text[e] == ':') && Clear(text[..e], "=:")
  }

  /** Without such a separator, a text that is no comment, continuation or header is malformed. */
  lemma {:induction false} NoPairForm(ctx: Context, indented: bool, text: string)
    requires !CommentText(text) && text[0] != '[' && (indented ==> |ctx.prevName| == 0)
    requires forall e: nat :: !SeparatorAt(text, e)
    ensures ParseText(ctx, indented, text) == Parsed(ctx, Malformed)
  {
    hide Clear;
    var e := Find(text, "=:", 0);
    NothingBefore(text, "=:", e);
    assert !SeparatorAt(text, e);
  }

  /** With one it has the shape of a pair. */
  lemma {:induction false} PairShaped(text: string, e: nat)
      returns (name: string, pad: string, pad': string, value: string, space: string, comment: string)
    requires Bare(text) && !CommentText(text) && text[0] != '[' && SeparatorAt(text, e)
    ensures PairShape(name, pad, text[e], pad', value, space, comment)
    ensures text == name + pad + [text[e]] + pad' + value + space + comment
  {
    hide PairShape, ValueShape, Clear, White, Blank;
    var left, right := text[..e], text[e + 1..];
    assert |left| > 0 ==> left[0] == text[0];
    assert |right| > 0 ==> right[|right| - 1] == text[|text| - 1];
    name, pad := NameParts(left);
    pad', value, space, comment := ValueParts(right);
    assert text == left + [text[e]] + right;
    assert |name| > 0 ==> name[0] == left[0];
    ShapeHolds(name, pad, text[e], pad', value, space, comment);
  }

  lemma {:induction false} ShapeHolds(name: string, pad: string, sep: char, pad': string, value: string, space: string, comment: string)
    requires sep == '=' || sep == ':'
    requires (Bare(name) || |name| == |pad| == 0) && Blank(pad) && Clear(name, "=:")
    requires |name| > 0 ==> !CommentText(name) && name[0] != '['
    requires ValueShape(pad', value, space, comment)
    ensures PairShape(name, pad, sep, pad', value, space, comment)
  {
  }

  lemma {:induction false} NameParts(left: string) returns (name: string, pad: string)
    requires Clear(left, "=:") && (|left| > 0 ==> !White(left[0]))
    ensures left == name + pad && (Bare(name) || |name| == |pad| == 0) && Blank(pad) && Clear(name, "=:")
  {
    hide Clear;
    var n := EndAt(left, |left|);
    name, pad := left[..n], left[n..];
    ClearPrefix(left, n, "=:");
  }

  lemma {:induction false} ClearPrefix(s: string, n: nat, chars: string)
    requires n <= |s| && Clear(s, chars)
    ensures Clear(s[..n], chars)
  {
    var p := s[..n];
    assert forall i :: 0 <= i < n ==> p[i] == s[i];
  }

  predicate ValueShape(pad: string, value: string, space: string, comment: string) {
    && (Bare(value) || |value| == |space| == 0) && Blank(pad) && Clear(value, "")
    && (|value| > 0 ==> !(value[0] == ';' && |pad| > 0))
    && Remark(|value| == 0 && |pad| > 0, space, comment)
  }

  lemma {:induction false} ValueParts(right: string) returns (pad: string, value: string, space: string, comment: string)
    requires |right| > 0 ==> !White(right[|right| - 1])
    ensures right == pad + value + space + comment && ValueShape(pad, value, space, comment)
  {
    hide Blank, Bare;
    var f := Find(right, "", 0);
    var w := right[..f];
    comment := right[f..];
    pad, value, space := Pieces(w);
    NothingBefore(right, "", f);
    assert right == w + comment;
    CommentOrEnd(right, f);
    ValueClear(w, pad, value, space);
    PiecesEnd(pad, value, space);
  }

  lemma {:induction false} CommentOrEnd(right: string, f: nat)
    requires f == Find(right, "", 0)
    ensures f < |right| ==> right[f] == ';' && f > 0 && White(right[..f][f - 1])
  {
    assert f < |right| ==> StopsAt(right, "", f);
  }

  lemma {:induction false} ValueClear(w: string, pad: string, value: string, space: string)
    requires Clear(w, "") && w == pad + value + space && Blank(pad)
    ensures Clear(value, "") && (|value| > 0 ==> !(value[0] == ';' && |pad| > 0))
  {
    assert forall i :: 0 <= i < |value| ==> w[|pad| + i] == value[i];
    assert |pad| > 0 ==> w[|pad| - 1] == pad[|pad| - 1];
    forall i | 1 <= i < |value| && White(value[i - 1])
      ensures value[i] != ';'
    {
      assert w[|pad| + i - 1] == value[i - 1] && w[|pad| + i] == value[i];
    }
  }

  /** Whitespace before an inline comment that does not follow the value directly is some space. */
  lemma {:induction false} PiecesEnd(pad: string, value: string, space: string)
    requires Blank(pad) && Blank(space) && (Bare(value) || |value| == |space| == 0)
    ensures var w := pad + value + space;
      && (|w| > 0 && White(w[|w| - 1]) ==> |space| > 0 || (|value| == 0 && |pad| > 0))
      && (|w| > 0 && !White(w[|w| - 1]) ==> |space| == 0)
  {
  }

  /** Whitespace, what is between it, whitespace. */
  lemma {:induction false} Pieces(w: string) returns (before: string, text: string, after: string)
    ensures w == before + text + after && Blank(before) && Blank(after) && (Bare(text) || |text| == |after| == 0)
  {
    var n := EndAt(w, |w|);
    if n == 0 {
      before, text, after := w, "", "";
    } else {
      var b := StartAt(w, 0);
      assert b <= n - 1;
      before, text, after := w[..b], w[b..n], w[n..];
      assert text[0] == w[b] && text[|text| - 1] == w[n - 1];
    }
  }

  lemma {:induction false} PadClear(name: string, pad: string)
    requires Clear(name, "=:") && Blank(pad)
    ensures Clear(name + pad, "=:")
  {
    var named := name + pad;
    assert forall j :: 0 <= j < |name| ==> named[j] == name[j];
    assert forall j :: |name| <= j < |named| ==> named[j] == pad[j - |name|];
  }

  lemma {:induction false} TrimName(name: string, pad: string)
    requires (Bare(name) || |name| == |pad| == 0) && Blank(pad)
    ensures RTrim(name + pad) == name
  {
    TrimBehind(name, pad);
  }

  /** The inline comment starts behind what is seen, and nowhere before. */
  lemma {:induction false} CommentStarts(pad: string, value: string, space: string, comment: string)
    requires ValueShape(pad, value, space, comment)
    ensures Find(pad + value + space + comment, "", 0) == |pad + value + space|
  {
    var seen := pad + value + space;
    var v := seen + comment;
    forall j | 0 <= j < |seen|
      ensures !StopsAt(v, "", j)
    {
      if j < |pad| {
        assert v[j] == pad[j];
      } else if j < |pad| + |value| {
        assert v[j] == value[j - |pad|];
        assert j > |pad| ==> v[j - 1] == value[j - |pad| - 1];
      } else {
        assert v[j] == space[j - |pad| - |value|];
      }
    }
    if |comment| > 0 {
      assert v[|seen|] == comment[0] == ';';
      assert |space| > 0 ==> v[|seen| - 1] == space[|space| - 1];
      assert |space| == 0 ==> v[|seen| - 1] == pad[|pad| - 1];
      assert StopsAt(v, "", |seen|);
    }
  }

  /** A value has whitespace neither in front nor before what follows it. */
  lemma {:induction false} BareEnds(value: string, space: string)
    requires Bare(value) || |value| == |space| == 0
    ensures |value + space| > 0 ==> !White((value + space)[0])
    ensures |value| > 0 ==> !White(value[|value| - 1])
  {
  }

  lemma {:induction false} RightOf(pad: string, value: string, space: string, comment: string)
    requires ValueShape(pad, value, space, comment)
    ensures ValueOf(pad + value + space + comment) == value
  {
    hide Bare, Find, LTrim, RTrim;
    var seen := pad + value + space;
    var v := seen + comment;
    assert Find(v, "", 0) == |seen| by {
      CommentStarts(pad, value, space, comment);
    }
    assert v[..|seen|] == seen;
    assert seen == pad + (value + space);
    BareEnds(value, space);
    TrimBefore(pad, value + space);
    TrimBehind(value, space);
  }

  // ----- every line has one of the forms -----

  /** Every chunk is laid out in one way. */
  lemma {:induction false} Layout(first: bool, line: string)
      returns (mark: string, before: string, text: string, after: string, tail: string)
    ensures line == mark + before + text + after + tail && LaidOut(first, mark, before, text, after, tail)
  {
    var s := CStr(line);
    tail := line[|s|..];
    mark := if HasBom(first, s) then s[..3] else "";
    var body := s[|mark|..];
    before, text, after := Pieces(body);
    assert line == s + tail && s == mark + body;
    assert HasBom(first, s) ==> s[..3] == BOM;
  }
}
