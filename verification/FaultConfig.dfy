/** The queue of fault rules as a value: what conf_option_handler does to it, and what a whole list of
    handler calls means. */
module FaultConfig {
  import opened CStrings
  import opened IniGrammar
  import opened IniTheorems

  datatype Option<T> = None | Some(value: T)

  /** errinj_type: an index into errinj_name. */
  type Kind = k: int | 0 <= k < 4
  const ERRNO: Kind := 0
  const KILL_CALLER: Kind := 1
  const NOOP: Kind := 2
  const SLOWDOWN: Kind := 3

  const KIND_NAMES: seq<string> := ["errinj_errno", "errinj_kill_caller", "errinj_noop", "errinj_slowdown"]

  const PATH_REGEXP := "path_regexp"
  const OP_REGEXP := "op_regexp"
  const PROBABILITY := "probability"
  const DURATION := "duration"

  /** One rule. An absent regular expression is a NULL pointer; the numbers are unsigned ints. */
  datatype Fault = Fault(kind: Kind, pathRegexp: Option<string>, opRegexp: Option<string>,
                         probability: nat, duration: nat)

  function ZeroFault(k: Kind): Fault {
    Fault(k, None, None, 0, 0)
  }

  function TypeOf(name: string): (k: int)
    ensures -1 <= k < 4
    ensures k >= 0 ==> KIND_NAMES[k] == name
    ensures k == -1 ==> name !in KIND_NAMES
  {
    if name == KIND_NAMES[0] then 0
    else if name == KIND_NAMES[1] then 1
    else if name == KIND_NAMES[2] then 2
    else if name == KIND_NAMES[3] then 3
    else -1
  }

  // ----- numbers -----

  predicate IsDigit(c: char) {
    '0' <= c <= '9'
  }

  /** The number written by the digits of s from i on, after the digits read so far. */
  function Digits(s: string, i: nat, soFar: nat): nat
    requires i <= |s|
    decreases |s| - i
  {
    if i < |s| && IsDigit(s[i]) then Digits(s, i + 1, 10 * soFar + (s[i] as int - '0' as int)) else soFar
  }

  /** atoi: whitespace, an optional sign, digits, and whatever follows is ignored. */
  function Atoi(s: string): int {
    var i := StartAt(s, 0);
    if i < |s| && s[i] == '-' then 0 - Digits(s, i + 1, 0)
    else if i < |s| && s[i] == '+' then Digits(s, i + 1, 0)
    else Digits(s, i, 0)
  }

  /** An int stored in an unsigned int wraps around. */
  function AsUnsigned(x: int): nat {
    x % 0x1_0000_0000
  }

  // ----- one call -----

  /** The keys conf_option_handler knows. */
  predicate KnownKey(key: string) {
    key == PATH_REGEXP || key == OP_REGEXP || key == PROBABILITY || key == DURATION
  }

  function SetOption(f: Fault, key: string, value: string): Fault {
    if key == PATH_REGEXP then f.(pathRegexp := Some(value))
    else if key == OP_REGEXP then f.(opRegexp := Some(value))
    else if key == PROBABILITY then f.(probability := AsUnsigned(Atoi(value)))
    else if key == DURATION then f.(duration := AsUnsigned(Atoi(value)))
    else f
  }

  /** The position of the first rule of kind k from i on, or the end of the queue. */
  function IndexOf(q: seq<Fault>, k: Kind, i: nat): (n: nat)
    requires i <= |q|
    ensures i <= n <= |q|
    ensures n < |q| ==> q[n].kind == k
    ensures forall j :: i <= j < n ==> q[j].kind != k
    decreases |q| - i
  {
    if i == |q| || q[i].kind == k then i else IndexOf(q, k, i + 1)
  }

  /** The queue after one handler call: the rule of the section's kind is found or appended, then set. */
  function Apply(q: seq<Fault>, c: Call): seq<Fault> {
    var k := TypeOf(c.section);
    if k == -1 then q
    else
      var i := IndexOf(q, k, 0);
      var q' := if i < |q| then q else q + [ZeroFault(k)];
      q'[i := SetOption(q'[i], c.name, c.value)]
  }

  /** The handler's result: -1 for an unknown section, 0 for an unknown key, otherwise 1. */
  function HandlerResult(c: Call): int {
    if TypeOf(c.section) == -1 then -1 else if KnownKey(c.name) then 1 else 0
  }

  /** conf_option_handler as the parser sees it: only 0 is a failure, so an unknown section is none. */
  function ConfigHandler(): Handler {
    (cs: seq<Call>) => |cs| > 0 ==> HandlerResult(cs[|cs| - 1]) != 0
  }

  /** What a list of calls makes of a queue. */
  function ApplyAll(q: seq<Fault>, cs: seq<Call>): seq<Fault> {
    if cs == [] then q else Apply(ApplyAll(q, cs[..|cs| - 1]), cs[|cs| - 1])
  }

  /** The queue after a list of calls. */
  function QueueAfter(cs: seq<Call>): seq<Fault> {
    ApplyAll([], cs)
  }

  // ----- what a list of calls means, without a queue -----

  /** The kinds that occur, each once, in the order of their first calls. */
  function Kinds(cs: seq<Call>): seq<Kind> {
    if cs == [] then []
    else
      var ks := Kinds(cs[..|cs| - 1]);
      var k := TypeOf(cs[|cs| - 1].section);
      if k == -1 || k in ks then ks else ks + [k]
  }

  predicate Sets(c: Call, k: Kind, key: string) {
    TypeOf(c.section) == k && c.name == key
  }

  /** The value of the last call that sets key in a section of kind k. */
  function LastValue(cs: seq<Call>, k: Kind, key: string): Option<string> {
    if cs == [] then None
    else if Sets(cs[|cs| - 1], k, key) then Some(cs[|cs| - 1].value)
    else LastValue(cs[..|cs| - 1], k, key)
  }

  function NumberOf(v: Option<string>): nat {
    if v.Some? then AsUnsigned(Atoi(v.value)) else 0
  }

  function RuleOf(cs: seq<Call>, k: Kind): Fault {
    Fault(k, LastValue(cs, k, PATH_REGEXP), LastValue(cs, k, OP_REGEXP),
          NumberOf(LastValue(cs, k, PROBABILITY)), NumberOf(LastValue(cs, k, DURATION)))
  }

  /** What the calls configure: one rule per kind that occurs, holding the last value of every option. */
  function Meaning(cs: seq<Call>): seq<Fault> {
    var ks := Kinds(cs);
    seq(|ks|, i requires 0 <= i < |ks| => RuleOf(cs, ks[i]))
  }

  // ----- the names, spelled out -----

  /** Which option a key sets; every other key is unknown and sets none. */
  lemma {:induction false} OptionNames(f: Fault, key: string, value: string)
    ensures SetOption(f, "path_regexp", value) == f.(pathRegexp := Some(value))
    ensures SetOption(f, "op_regexp", value) == f.(opRegexp := Some(value))
    ensures SetOption(f, "probability", value) == f.(probability := Atoi(value) % 4_294_967_296)
    ensures SetOption(f, "duration", value) == f.(duration := Atoi(value) % 4_294_967_296)
    ensures key !in ["path_regexp", "op_regexp", "probability", "duration"] <==> !KnownKey(key)
    ensures !KnownKey(key) ==> SetOption(f, key, value) == f
  {
    var keys := ["path_regexp", "op_regexp", "probability", "duration"];
    assert keys[0] == PATH_REGEXP && keys[1] == OP_REGEXP && keys[2] == PROBABILITY && keys[3] == DURATION;
    KeysDistinct();
  }

  /** What conf_option_handler answers. */
  lemma {:induction false} HandlerAnswers(c: Call)
    ensures HandlerResult(c) ==
      if c.section !in ["errinj_errno", "errinj_kill_caller", "errinj_noop", "errinj_slowdown"] then -1
      else if c.name in ["path_regexp", "op_regexp", "probability", "duration"] then 1
      else 0
  {
    assert KIND_NAMES == ["errinj_errno", "errinj_kill_caller", "errinj_noop", "errinj_slowdown"];
    OptionNames(ZeroFault(0), c.name, c.value);
  }

  lemma {:induction false} KeysDistinct()
    ensures PATH_REGEXP != OP_REGEXP && PATH_REGEXP != PROBABILITY && PATH_REGEXP != DURATION
    ensures OP_REGEXP != PROBABILITY && OP_REGEXP != DURATION && PROBABILITY != DURATION
  {
    assert "path_regexp"[1] == 'a' && "op_regexp"[1] == 'p' && "probability"[1] == 'r' && "duration"[1] == 'u';
  }

  /** The kinds by their section names, and what a section without options means. */
  lemma {:induction false} SectionNames(f: Fault)
    ensures TypeOf("errinj_errno") == ERRNO && TypeOf("errinj_kill_caller") == KILL_CALLER
    ensures TypeOf("errinj_noop") == NOOP && TypeOf("errinj_slowdown") == SLOWDOWN
    ensures f == ZeroFault(f.kind) <==> f.pathRegexp == f.opRegexp == None && f.probability == f.duration == 0
  {
    assert "errinj_errno"[7] == 'e' && "errinj_kill_caller"[7] == 'k' && "errinj_noop"[7] == 'n' && "errinj_slowdown"[7] == 's';
  }

  lemma {:induction false} KindNames(k: Kind)
    ensures KIND_NAMES[k] == "errinj_errno" <==> k == ERRNO
    ensures KIND_NAMES[k] == "errinj_kill_caller" <==> k == KILL_CALLER
    ensures KIND_NAMES[k] == "errinj_noop" <==> k == NOOP
    ensures KIND_NAMES[k] == "errinj_slowdown" <==> k == SLOWDOWN
    ensures KIND_NAMES[k] in ["errinj_noop", "errinj_errno"] <==> k == NOOP || k == ERRNO
  {
    assert "errinj_errno"[7] == 'e' && "errinj_kill_caller"[7] == 'k' && "errinj_noop"[7] == 'n' && "errinj_slowdown"[7] == 's';
  }

  // ----- the two agree -----

  lemma {:induction false} KindsDistinct(cs: seq<Call>)
    ensures forall i, j :: 0 <= i < j < |Kinds(cs)| ==> Kinds(cs)[i] != Kinds(cs)[j]
  {
    if |cs| == 0 {
    } else {
      KindsDistinct(cs[..|cs| - 1]);
    }
  }

  lemma {:induction false} LastValueNeedsKind(cs: seq<Call>, k: Kind, key: string)
    requires k !in Kinds(cs)
    ensures LastValue(cs, k, key) == None
  {
    if |cs| == 0 {
    } else {
      LastValueNeedsKind(cs[..|cs| - 1], k, key);
    }
  }

  lemma {:induction false} RuleUnchanged(cs: seq<Call>, c: Call, k: Kind)
    requires TypeOf(c.section) != k
    ensures RuleOf(cs + [c], k) == RuleOf(cs, k)
  {
  }

  lemma {:induction false} RuleSet(cs: seq<Call>, c: Call, k: Kind)
    requires TypeOf(c.section) == k
    ensures RuleOf(cs + [c], k) == SetOption(RuleOf(cs, k), c.name, c.value)
  {
  }

  lemma {:induction false} RuleFresh(cs: seq<Call>, k: Kind)
    requires k !in Kinds(cs)
    ensures RuleOf(cs, k) == ZeroFault(k)
  {
    LastValueNeedsKind(cs, k, PATH_REGEXP);
    LastValueNeedsKind(cs, k, OP_REGEXP);
    LastValueNeedsKind(cs, k, PROBABILITY);
    LastValueNeedsKind(cs, k, DURATION);
  }

  lemma {:induction false} ApplyToMeaning(cs: seq<Call>, c: Call)
    ensures Apply(Meaning(cs), c) == Meaning(cs + [c])
  {
    hide RuleOf, SetOption;
    var q, q', k := Meaning(cs), Meaning(cs + [c]), TypeOf(c.section);
    var ks := Kinds(cs);
    assert (cs + [c])[..|cs|] == cs;
    KindsDistinct(cs);
    assert forall j :: 0 <= j < |q| ==> q[j].kind == ks[j] by {
      assert forall j: Kind :: RuleOf(cs, j).kind == j by { RuleKinds(cs); }
    }
    forall j: Kind | j != k
      ensures RuleOf(cs + [c], j) == RuleOf(cs, j)
    {
      RuleUnchanged(cs, c, j);
    }
    if k >= 0 {
      RuleSet(cs, c, k);
      if k !in ks {
        RuleFresh(cs, k);
      }
    }
    assert |Apply(q, c)| == |q'|;
    assert forall j :: 0 <= j < |q'| ==> Apply(q, c)[j] == q'[j];
  }

  lemma {:induction false} RuleKinds(cs: seq<Call>)
    ensures forall j: Kind :: RuleOf(cs, j).kind == j
  {
  }

  /** The queue built one call at a time is what the whole list of calls means. */
  lemma {:induction false} QueueIsMeaning(cs: seq<Call>)
    ensures QueueAfter(cs) == Meaning(cs)
  {
    if |cs| == 0 {
    } else {
      var n := |cs| - 1;
      QueueIsMeaning(cs[..n]);
      ApplyToMeaning(cs[..n], cs[n]);
      assert cs[..n] + [cs[n]] == cs;
    }
  }

  // ----- the meaning, spelled out -----

  /** Some call in a section of kind k comes before position n. */
  predicate Occurs(cs: seq<Call>, k: Kind, n: nat) {
    exists i :: 0 <= i < n && i < |cs| && TypeOf(cs[i].section) == k
  }

  /** Kind j occurs at some point where kind k does not occur yet. */
  ghost predicate OccursBefore(cs: seq<Call>, j: Kind, k: Kind) {
    exists n: nat :: n <= |cs| && Occurs(cs, j, n) && !Occurs(cs, k, n)
  }

  /** Exactly the kinds that occur are there, each once, and a kind that comes earlier occurs earlier. */
  lemma {:induction false} KindsInOrder(cs: seq<Call>)
    ensures forall k: Kind :: k in Kinds(cs) <==> Occurs(cs, k, |cs|)
    ensures forall a, b :: 0 <= a < b < |Kinds(cs)| ==> OccursBefore(cs, Kinds(cs)[a], Kinds(cs)[b])
  {
    if |cs| == 0 {
    } else {
      var m := |cs| - 1;
      var init := cs[..m];
      KindsInOrder(init);
      forall k: Kind, n: nat | n <= m
        ensures Occurs(init, k, n) == Occurs(cs, k, n)
      {
        OccursPrefix(cs, k, n);
      }
      forall k: Kind
        ensures Occurs(cs, k, |cs|) <==> Occurs(cs, k, m) || TypeOf(cs[m].section) == k
      {
      }
      forall a, b | 0 <= a < b < |Kinds(cs)|
        ensures OccursBefore(cs, Kinds(cs)[a], Kinds(cs)[b])
      {
        if b < |Kinds(init)| {
          assert OccursBefore(init, Kinds(init)[a], Kinds(init)[b]);
          var n: nat :| n <= m && Occurs(init, Kinds(init)[a], n) && !Occurs(init, Kinds(init)[b], n);
          assert Occurs(cs, Kinds(cs)[a], n) && !Occurs(cs, Kinds(cs)[b], n);
        } else {
          assert Kinds(init)[a] in Kinds(init);
          assert Occurs(cs, Kinds(cs)[a], m) && !Occurs(cs, Kinds(cs)[b], m);
        }
      }
    }
  }

  lemma {:induction false} OccursPrefix(cs: seq<Call>, k: Kind, n: nat)
    requires |cs| > 0 && n <= |cs| - 1
    ensures Occurs(cs[..|cs| - 1], k, n) == Occurs(cs, k, n)
  {
  }

  /** Call i is the last one that sets key in a section of kind k. */
  ghost predicate SetsLast(cs: seq<Call>, k: Kind, key: string, i: nat) {
    i < |cs| && Sets(cs[i], k, key) && forall j :: i < j < |cs| ==> !Sets(cs[j], k, key)
  }

  /** An option holds the value of the last call that sets it, and nothing when no call does. */
  lemma {:induction false} LastValueIsLast(cs: seq<Call>, k: Kind, key: string)
    ensures LastValue(cs, k, key) == None <==> forall i :: 0 <= i < |cs| ==> !Sets(cs[i], k, key)
    ensures forall i: nat :: SetsLast(cs, k, key, i) ==> LastValue(cs, k, key) == Some(cs[i].value)
  {
    hide Sets;
    if |cs| == 0 {
    } else {
      var n := |cs| - 1;
      var init := cs[..n];
      LastValueIsLast(init, k, key);
      assert forall i :: 0 <= i < n ==> init[i] == cs[i];
      forall i: nat | SetsLast(cs, k, key, i)
        ensures LastValue(cs, k, key) == Some(cs[i].value)
      {
        if i < n {
          assert SetsLast(init, k, key, i);
        }
      }
    }
  }

  /** The lines that make the parser report an error: a malformed one, and an unknown key of a known section. */
  predicate Offends(o: Outcome) {
    o.Malformed? || (o.Emit? && o.call.section in KIND_NAMES && !KnownKey(o.call.name))
  }

  lemma {:induction false} TypeOfKnown(name: string)
    ensures TypeOf(name) >= 0 <==> name in KIND_NAMES
  {
  }

  lemma {:induction false} BadOffends(os: seq<Outcome>, i: nat)
    requires i < |os|
    ensures Bad(os, ConfigHandler(), i) <==> Offends(os[i])
  {
  }

  /** End to end: after any text the queue holds one rule for every kind with a name/value line, in the
      order of their first such lines, each option with its last value, continuation lines included; and
      the parser's result is 0 exactly when no line offends, otherwise the number of the first that does. */
  lemma {:induction false} ConfigurationMeaning(text: string)
    ensures QueueAfter(Calls(Outcomes(text))) == Meaning(Calls(Outcomes(text)))
    ensures var os := Outcomes(text);
      var r := Result(os, ConfigHandler());
      && (r == 0 <==> forall i :: 0 <= i < |os| ==> !Offends(os[i]))
      && (r > 0 ==> Offends(os[r - 1]) && forall i :: 0 <= i < r - 1 ==> !Offends(os[i]))
  {
    hide Outcomes, Meaning, QueueAfter, Result, Bad, Offends, Calls;
    var os := Outcomes(text);
    QueueIsMeaning(Calls(os));
    ResultIsFirstBad(os, ConfigHandler());
    forall i | 0 <= i < |os|
      ensures Bad(os, ConfigHandler(), i) <==> Offends(os[i])
    {
      BadOffends(os, i);
    }
  }

  lemma {:induction false} ApplyAllAppend(q: seq<Fault>, a: seq<Call>, b: seq<Call>)
    ensures ApplyAll(q, a + b) == ApplyAll(ApplyAll(q, a), b)
  {
    if |b| == 0 {
      assert a + b == a;
    } else {
      var n := |b| - 1;
      ApplyAllAppend(q, a, b[..n]);
      assert (a + b)[..|a| + n] == a + b[..n];
    }
  }

  /** A call for an unknown section changes nothing, wherever it stands. */
  lemma {:induction false} UnknownSectionIgnored(a: seq<Call>, c: Call, b: seq<Call>)
    requires c.section !in KIND_NAMES
    ensures QueueAfter(a + [c] + b) == QueueAfter(a + b)
  {
    TypeOfKnown(c.section);
    assert (a + [c])[..|a|] == a;
    ApplyAllAppend([], a + [c], b);
    ApplyAllAppend([], a, b);
  }
}
