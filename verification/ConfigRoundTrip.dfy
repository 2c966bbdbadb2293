/** From rules to text and back: a rule queue printed as a control file is read back as the same queue. */
module ConfigRoundTrip {
  import opened CStrings
  import opened IniGrammar
  import opened IniReader
  import opened IniLines
  import opened IniRoundTrip
  import opened IniAnyLine
  import opened FaultConfig

  /** n in decimal. */
  function Decimal(n: nat): (s: string)
    ensures |s| > 0 && forall i :: 0 <= i < |s| ==> IsDigit(s[i])
  {
    var last := [('0' as int + n % 10) as char];
    if n < 10 then last else Decimal(n / 10) + last
  }

  /** Reading on through digits multiplies what was read before. */
  lemma {:induction false} DigitsAppend(s: string, i: nat, soFar: nat, c: char)
    requires i <= |s| && (forall j :: i <= j < |s| ==> IsDigit(s[j])) && IsDigit(c)
    ensures Digits(s + [c], i, soFar) == 10 * Digits(s, i, soFar) + (c as int - '0' as int)
    decreases |s| - i
  {
    var t := s + [c];
    assert t[i] == if i < |s| then s[i] else c;
    if i < |s| {
      DigitsAppend(s, i + 1, 10 * soFar + (s[i] as int - '0' as int), c);
    } else {
      assert Digits(t, i + 1, 10 * soFar + (c as int - '0' as int)) == 10 * soFar + (c as int - '0' as int);
    }
  }

  lemma {:induction false} DigitsOfDecimal(n: nat)
    ensures Digits(Decimal(n), 0, 0) == n
  {
    if n >= 10 {
      DigitsOfDecimal(n / 10);
      DigitsAppend(Decimal(n / 10), 0, 0, ('0' as int + n % 10) as char);
    } else {
      assert Digits(Decimal(n), 1, n) == n;
    }
  }

  /** atoi inverts decimal notation. */
  lemma {:induction false} AtoiOfDecimal(n: nat)
    ensures Atoi(Decimal(n)) == n
  {
    var s := Decimal(n);
    DigitsOfDecimal(n);
    assert IsDigit(s[0]);
    assert StartAt(s, 0) == 0;
  }

  /** Digits do not depend on what stands around them. */
  lemma {:induction false} DigitsInside(p: string, s: string, rest: string, i: nat, soFar: nat)
    requires i <= |s| && (forall j :: 0 <= j < |s| ==> IsDigit(s[j])) && (|rest| > 0 ==> !IsDigit(rest[0]))
    ensures Digits(p + s + rest, |p| + i, soFar) == Digits(s, i, soFar)
    decreases |s| - i
  {
    var t := p + s + rest;
    if i == |s| {
      assert |rest| > 0 ==> t[|p| + i] == rest[0];
    } else {
      assert t[|p| + i] == s[i];
      DigitsInside(p, s, rest, i + 1, 10 * soFar + (s[i] as int - '0' as int));
    }
  }

  /** atoi in full: whitespace is skipped, a sign counts, and what follows the digits does not. */
  lemma {:induction false} AtoiReads(space: string, sign: string, n: nat, rest: string)
    requires Blank(space) && (|rest| > 0 ==> !('0' <= rest[0] <= '9'))
    requires sign == "" || sign == "+" || sign == "-"
    ensures Atoi(space + sign + Decimal(n) + rest) == if sign == "-" then 0 - n else n
  {
    hide White;
    var digits := Decimal(n);
    DigitsOfDecimal(n);
    DigitsInside(space + sign, digits, rest, 0, 0);
    DigitsShow(digits[0]);
    assert space + sign + digits + rest == space + (sign + digits + rest);
    assert |sign| > 0 ==> (sign + digits + rest)[0] == sign[0];
    FirstShown(space, sign + digits + rest);
  }

  /** Without a number, atoi is 0. */
  lemma {:induction false} AtoiOfNothing(space: string, rest: string)
    requires Blank(space) && |rest| > 0 && !White(rest[0]) && rest[0] != '-' && rest[0] != '+' && !('0' <= rest[0] <= '9')
    ensures Atoi(space) == Atoi(space + rest) == 0
  {
    FirstShown(space, rest);
    assert StartAt(space, 0) == |space|;
  }

  lemma {:induction false} DigitsShow(c: char)
    ensures IsDigit(c) ==> !White(c) && c != '-' && c != '+'
    ensures !White('-') && !White('+')
  {
  }

  lemma {:induction false} FirstShown(space: string, s: string)
    requires Blank(space) && |s| > 0 && !White(s[0])
    ensures StartAt(space + s, 0) == |space| && (space + s)[|space|] == s[0]
  {
    TrimBefore(space, s);
    assert |LTrim(space + s)| == |s|;
  }

  function RegexItems(key: string, regex: Option<string>): seq<Item> {
    if regex.Some? then [Item(key, regex.value, [])] else []
  }

  /** One section per rule: its regular expressions, if any, and both numbers. */
  function BlockOf(f: Fault): Block {
    Block(KIND_NAMES[f.kind],
          RegexItems(PATH_REGEXP, f.pathRegexp) + RegexItems(OP_REGEXP, f.opRegexp)
          + [Item(PROBABILITY, Decimal(f.probability), []), Item(DURATION, Decimal(f.duration), [])])
  }

  function DocOf(q: seq<Fault>): seq<Block> {
    if q == [] then [] else [BlockOf(q[0])] + DocOf(q[1..])
  }

  /** A regular expression that fits on its option line and survives there. */
  predicate SayableRegex(key: string, regex: Option<string>) {
    regex.Some? ==> ValueOk(regex.value) && FitsLine(PairLine(key, regex.value))
  }

  /** A rule that a control file can say; its numbers are in the range of atoi. */
  predicate Sayable(f: Fault) {
    && f.probability < 0x8000_0000 && f.duration < 0x8000_0000
    && SayableRegex(PATH_REGEXP, f.pathRegexp) && SayableRegex(OP_REGEXP, f.opRegexp)
  }

  predicate DistinctKinds(q: seq<Fault>) {
    forall i, j :: 0 <= i < j < |q| ==> q[i].kind != q[j].kind
  }

  // ----- what the calls of one section do -----

  lemma {:induction false} TypeOfName(k: Kind)
    ensures TypeOf(KIND_NAMES[k]) == k
  {
  }

  /** A call for the last rule of a queue, or for a rule not yet in it. */
  lemma {:induction false} ApplyLast(q: seq<Fault>, f: Fault, key: string, value: string)
    requires forall i :: 0 <= i < |q| ==> q[i].kind != f.kind
    ensures Apply(q + [f], Call(KIND_NAMES[f.kind], key, value)) == q + [SetOption(f, key, value)]
    ensures f == ZeroFault(f.kind) ==>
      Apply(q, Call(KIND_NAMES[f.kind], key, value)) == q + [SetOption(f, key, value)]
  {
    hide SetOption, TypeOf;
    TypeOfName(f.kind);
    assert (q + [f])[|q|] == f;
    assert IndexOf(q + [f], f.kind, 0) == |q|;
    assert IndexOf(q, f.kind, 0) == |q|;
  }

  /** The calls of a section without continuation lines set the options of its rule one after the other. */
  function SetItems(f: Fault, items: seq<Item>): Fault {
    if items == [] then f else SetOption(SetItems(f, items[..|items| - 1]), items[|items| - 1].name, items[|items| - 1].value)
  }

  lemma {:induction false} SetItemsKind(f: Fault, items: seq<Item>)
    ensures SetItems(f, items).kind == f.kind
  {
    if |items| == 0 {
    } else {
      SetItemsKind(f, items[..|items| - 1]);
    }
  }

  predicate Plain(items: seq<Item>) {
    forall i :: 0 <= i < |items| ==> items[i].more == []
  }

  lemma {:induction false} ItemsCallsSnoc(title: string, items: seq<Item>, item: Item)
    requires item.more == []
    ensures ItemsCalls(title, items + [item]) == ItemsCalls(title, items) + [Call(title, item.name, item.value)]
  {
    if |items| == 0 {
      assert items + [item] == [item];
      assert [item][1..] == [];
    } else {
      assert (items + [item])[1..] == items[1..] + [item];
      ItemsCallsSnoc(title, items[1..], item);
    }
  }

  lemma {:induction false} SectionApplied(q: seq<Fault>, k: Kind, items: seq<Item>)
    requires |items| > 0 && Plain(items) && forall i :: 0 <= i < |q| ==> q[i].kind != k
    ensures ApplyAll(q, ItemsCalls(KIND_NAMES[k], items)) == q + [SetItems(ZeroFault(k), items)]
  {
    hide SetOption, Apply;
    var n := |items| - 1;
    var init, item := items[..n], items[n];
    assert items == init + [item];
    ItemsCallsSnoc(KIND_NAMES[k], init, item);
    var cs, c := ItemsCalls(KIND_NAMES[k], init), Call(KIND_NAMES[k], item.name, item.value);
    assert (cs + [c])[..|cs|] == cs;
    SetItemsKind(ZeroFault(k), init);
    if n == 0 {
      assert cs == [];
      ApplyLast(q, ZeroFault(k), item.name, item.value);
    } else {
      SectionApplied(q, k, init);
      ApplyLast(q, SetItems(ZeroFault(k), init), item.name, item.value);
    }
  }

  /** One more option set. */
  lemma {:induction false} SetItemsSnoc(f: Fault, items: seq<Item>, item: Item)
    ensures SetItems(f, items + [item]) == SetOption(SetItems(f, items), item.name, item.value)
  {
  }

  lemma {:induction false} BlockRestores(f: Fault)
    requires Sayable(f)
    ensures SetItems(ZeroFault(f.kind), BlockOf(f).items) == f
  {
    hide Decimal, Atoi, SetItems;
    AtoiOfDecimal(f.probability);
    AtoiOfDecimal(f.duration);
    var z := ZeroFault(f.kind);
    var a := RegexItems(PATH_REGEXP, f.pathRegexp);
    var b := a + RegexItems(OP_REGEXP, f.opRegexp);
    var p, d := Item(PROBABILITY, Decimal(f.probability), []), Item(DURATION, Decimal(f.duration), []);
    NoItems(z);
    if f.pathRegexp.Some? {
      SetItemsSnoc(z, [], Item(PATH_REGEXP, f.pathRegexp.value, []));
      assert a == [] + a;
    }
    if f.opRegexp.Some? {
      SetItemsSnoc(z, a, Item(OP_REGEXP, f.opRegexp.value, []));
    } else {
      assert b == a;
    }
    SetItemsSnoc(z, b, p);
    SetItemsSnoc(z, b + [p], d);
    assert BlockOf(f).items == b + [p] + [d];
  }

  lemma {:induction false} NoItems(f: Fault)
    ensures SetItems(f, []) == f
  {
  }

  lemma {:induction false} BlockPlain(f: Fault)
    ensures |BlockOf(f).items| > 0 && Plain(BlockOf(f).items) && BlockOf(f).title == KIND_NAMES[f.kind]
  {
  }

  lemma {:induction false} BlockApplied(q: seq<Fault>, f: Fault)
    requires Sayable(f) && forall i :: 0 <= i < |q| ==> q[i].kind != f.kind
    ensures ApplyAll(q, ItemsCalls(BlockOf(f).title, BlockOf(f).items)) == q + [f]
  {
    hide Sayable, SetItems, BlockOf, ApplyAll, ItemsCalls;
    BlockPlain(f);
    SectionApplied(q, f.kind, BlockOf(f).items);
    assert SetItems(ZeroFault(f.kind), BlockOf(f).items) == f by {
      BlockRestores(f);
    }
  }

  lemma {:induction false} DocStep(rest: seq<Fault>)
    requires |rest| > 0
    ensures DocCalls(DocOf(rest))
         == ItemsCalls(BlockOf(rest[0]).title, BlockOf(rest[0]).items) + DocCalls(DocOf(rest[1..]))
  {
  }

  lemma {:induction false} DocApplied(q: seq<Fault>, rest: seq<Fault>)
    requires DistinctKinds(q + rest) && forall i :: 0 <= i < |rest| ==> Sayable(rest[i])
    ensures ApplyAll(q, DocCalls(DocOf(rest))) == q + rest
    decreases |rest|
  {
    if |rest| == 0 {
      assert q + rest == q;
    } else {
      hide Sayable, SetItems, BlockOf, ApplyAll, DocOf, DocCalls, ItemsCalls;
      var f, tail := rest[0], rest[1..];
      assert (q + rest)[|q|] == f;
      assert forall i :: 0 <= i < |q| ==> (q + rest)[i] == q[i];
      assert (q + [f]) + tail == q + rest;
      DocStep(rest);
      BlockApplied(q, f);
      ApplyAllAppend(q, ItemsCalls(BlockOf(f).title, BlockOf(f).items), DocCalls(DocOf(tail)));
      DocApplied(q + [f], tail);
    }
  }

  // ----- a sayable rule is a well-formed section -----

  predicate AllLower(s: string, i: nat)
    requires i <= |s|
    decreases |s| - i
  {
    i < |s| ==> ('a' <= s[i] <= 'z' || s[i] == '_') && AllLower(s, i + 1)
  }

  lemma {:induction false} LowerAt(s: string, i: nat)
    requires i <= |s| && AllLower(s, i)
    ensures forall j :: i <= j < |s| ==> 'a' <= s[j] <= 'z' || s[j] == '_'
    decreases |s| - i
  {
    if i == |s| {
    } else {
      LowerAt(s, i + 1);
    }
  }

  lemma {:induction false} LowerIsName(s: string)
    requires |s| > 0 && AllLower(s, 0)
    ensures NameOk(s) && TitleWord(s)
  {
    LowerAt(s, 0);
  }

  /** Nothing in s ends a header or a line, or starts a comment. */
  predicate TitleWord(s: string) {
    ']' !in s && NoInlineComment(s) && NUL !in s && NL !in s
  }

  lemma {:induction false} KeysAreNames(key: string)
    requires KnownKey(key)
    ensures NameOk(key) && TitleWord(key) && |key| <= 11
  {
    assert AllLower("path_regexp", 0) && AllLower("op_regexp", 0) && AllLower("probability", 0) && AllLower("duration", 0);
    LowerIsName(key);
  }

  lemma {:induction false} KindsAreLower()
    ensures AllLower("errinj_errno", 0) && AllLower("errinj_kill_caller", 0)
    ensures AllLower("errinj_noop", 0) && AllLower("errinj_slowdown", 0)
  {
    assert AllLower("errinj_kill_caller", 12);
    assert AllLower("errinj_kill_caller", 6);
    assert AllLower("errinj_slowdown", 8);
  }

  lemma {:induction false} KindNamesLower(k: Kind)
    ensures AllLower(KIND_NAMES[k], 0) && 0 < |KIND_NAMES[k]| <= 18
  {
    hide AllLower;
    KindsAreLower();
    assert k == 0 ==> KIND_NAMES[k] == "errinj_errno";
    assert k == 1 ==> KIND_NAMES[k] == "errinj_kill_caller";
    assert k == 2 ==> KIND_NAMES[k] == "errinj_noop";
    assert k == 3 ==> KIND_NAMES[k] == "errinj_slowdown";
  }

  lemma {:induction false} TitleFits(s: string)
    requires TitleWord(s) && |s| <= 18
    ensures TitleOk(s) && FitsLine(HeaderLine(s))
  {
  }

  lemma {:induction false} KindsAreTitles(k: Kind)
    ensures TitleOk(KIND_NAMES[k]) && FitsLine(HeaderLine(KIND_NAMES[k]))
  {
    hide AllLower, TitleWord, TitleOk, FitsLine, NameOk;
    KindNamesLower(k);
    LowerIsName(KIND_NAMES[k]);
    TitleFits(KIND_NAMES[k]);
  }

  lemma {:induction false} ValueFits(key: string, value: string)
    requires KnownKey(key) && ValueOk(value) && FitsLine(PairLine(key, value))
    ensures ItemOk(Item(key, value, []), false)
  {
    hide NameOk, ValueOk, KnownKey, FitsLine;
    KeysAreNames(key);
  }

  function Pow10(k: nat): nat {
    if k == 0 then 1 else 10 * Pow10(k - 1)
  }

  lemma {:induction false} DecimalLength(n: nat, k: nat)
    requires k > 0 && n < Pow10(k)
    ensures |Decimal(n)| <= k
  {
    if n < 10 {
    } else {
      DecimalLength(n / 10, k - 1);
    }
  }

  lemma {:induction false} NumberFits(key: string, n: nat)
    requires KnownKey(key) && n < 0x8000_0000
    ensures ItemOk(Item(key, Decimal(n), []), false)
  {
    hide KnownKey, ItemOk, NameOk, RTrim;
    assert Pow10(10) == 10_000_000_000;
    DecimalLength(n, 10);
    assert forall i :: 0 <= i < |Decimal(n)| ==> IsDigit(Decimal(n)[i]);
    KeysAreNames(key);
    ShortFits(PairLine(key, Decimal(n)));
    ValueFits(key, Decimal(n));
  }

  lemma {:induction false} ShortFits(s: string)
    requires NUL !in s && NL !in s && |s| < MAX_LINE
    ensures FitsLine(s)
  {
  }

  /** Options that all have names make a section, whatever was before them. */
  lemma {:induction false} NamedItemsOk(items: seq<Item>, unnamed: bool)
    requires forall i :: 0 <= i < |items| ==> ItemOk(items[i], false)
    ensures ItemsOk(items, unnamed)
  {
    hide NameOk, ValueOk, FitsLine;
    if |items| == 0 {
    } else {
      assert ItemOk(items[0], false);
      NamedItemsOk(items[1..], unnamed && |items[0].name| == 0);
    }
  }

  lemma {:induction false} BlockOfOk(f: Fault)
    requires Sayable(f)
    ensures BlockOk(BlockOf(f))
  {
    hide ItemOk, Decimal, ValueOk, TitleOk, FitsLine, ItemsOk;
    KindsAreTitles(f.kind);
    NumberFits(PROBABILITY, f.probability);
    NumberFits(DURATION, f.duration);
    if f.pathRegexp.Some? {
      ValueFits(PATH_REGEXP, f.pathRegexp.value);
    }
    if f.opRegexp.Some? {
      ValueFits(OP_REGEXP, f.opRegexp.value);
    }
    NamedItemsOk(BlockOf(f).items, true);
  }

  lemma {:induction false} DocOfOk(q: seq<Fault>)
    requires forall i :: 0 <= i < |q| ==> Sayable(q[i])
    ensures DocOk(DocOf(q))
  {
    hide Sayable, BlockOf, BlockOk;
    if |q| == 0 {
    } else {
      BlockOfOk(q[0]);
      DocOfOk(q[1..]);
    }
  }

  /** Configuration round trip: any queue of sayable rules of distinct kinds, printed as a control file, is
      loaded as that very queue. */
  lemma {:induction false} ConfigurationRoundTrip(q: seq<Fault>)
    requires DistinctKinds(q) && forall i :: 0 <= i < |q| ==> Sayable(q[i])
    ensures QueueAfter(Calls(Outcomes(Print(DocOf(q))))) == q
  {
    hide Sayable, Outcomes, Calls, Print, DocOf, DocCalls, DocOk, ApplyAll, ConfigHandler, Result;
    DocOfOk(q);
    RoundTrip(DocOf(q), ConfigHandler());
    DocApplied([], q);
    assert [] + q == q;
  }
}
