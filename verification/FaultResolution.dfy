/** What error_inject decides for one operation, as a function of the rules and the random stream. */
module FaultResolution {
  import opened FaultConfig

  /** The file operations whose dispatch is modelled. */
  datatype Op = Mkdir | Unlink | Rename | Truncate | Open | Create | Read | Write | Flush | Release

  function OpName(op: Op): string {
    match op
    case Mkdir => "mkdir"
    case Unlink => "unlink"
    case Rename => "rename"
    case Truncate => "truncate"
    case Open => "open"
    case Create => "creat"
    case Read => "read"
    case Write => "write"
    case Flush => "flush"
    case Release => "release"
  }

  type Errno = e: int | e > 0 witness 1

  /** The outside world: rand() as an infinite stream, regular expression matching, the errno that
      op_random_errno picks for an operation and a draw, and whether fuse_get_context knows a caller when so
      many draws have been made. */
  datatype Env = Env(random: nat -> nat, matches: (string, string) -> bool, errnoOf: (Op, nat) -> Errno,
                     caller: nat -> bool)

  const MIN_PROBABILITY := 0
  const MAX_PROBABILITY := 100

  /** -ERRNO_NOOP, where the macro ERRNO_NOOP is -999. */
  const NOOP_CODE := 999

  function RandRange(draw: nat, lo: nat, hi: nat): (r: nat)
    requires lo <= hi
    ensures lo <= r <= hi
  {
    draw % (hi - lo + 1) + lo
  }

  predicate Fires(draw: nat, probability: nat) {
    RandRange(draw, MIN_PROBABILITY, MAX_PROBABILITY) <= probability
  }

  /** is_regex_matched: a NULL pattern matches everything. */
  predicate RegexMatched(env: Env, regex: Option<string>, s: string) {
    regex.Some? ==> env.matches(regex.value, s)
  }

  predicate Triggered(env: Env, f: Fault, path: string, op: Op, draw: nat) {
    && Fires(draw, f.probability)
    && RegexMatched(env, f.pathRegexp, path)
    && RegexMatched(env, f.opRegexp, OpName(op))
  }

  /** A signal sent to the caller, or the process put to sleep for so many nanoseconds. */
  datatype Effect = Kill | Sleep(duration: nat)

  /** nanosleep refuses a tv_nsec of a second or more. */
  const NANOSECONDS := 1_000_000_000

  function KillEffect(env: Env, pos: nat): seq<Effect> {
    if env.caller(pos) then [Kill] else []
  }

  function SleepEffect(duration: nat): seq<Effect> {
    if duration < NANOSECONDS then [Sleep(duration)] else []
  }

  /** The return code, the number of draws made so far, and the side effects, in order. */
  datatype Resolution = Resolution(rc: int, pos: nat, effects: seq<Effect>)

  /** One turn of the loop of error_inject. */
  function Step(env: Env, f: Fault, path: string, op: Op, acc: Resolution): Resolution {
    if !Triggered(env, f, path, op, env.random(acc.pos)) then acc.(pos := acc.pos + 1)
    else if f.kind == NOOP then acc.(rc := NOOP_CODE, pos := acc.pos + 1)
    else if f.kind == KILL_CALLER then acc.(effects := acc.effects + KillEffect(env, acc.pos + 1), pos := acc.pos + 1)
    else if f.kind == ERRNO then acc.(rc := 0 - env.errnoOf(op, env.random(acc.pos + 1)), pos := acc.pos + 2)
    else acc.(effects := acc.effects + SleepEffect(f.duration), pos := acc.pos + 1)
  }

  function Resolve(env: Env, q: seq<Fault>, path: string, op: Op, pos: nat): Resolution {
    if q == [] then Resolution(0, pos, [])
    else Step(env, q[|q| - 1], path, op, Resolve(env, q[..|q| - 1], path, op, pos))
  }

  // ----- the same, rule by rule -----

  /** The position of the threshold draw of rule i: one draw per earlier rule, and one more for every
      earlier errno rule that triggered. */
  function DrawOf(env: Env, q: seq<Fault>, path: string, op: Op, pos: nat, i: nat): nat
    requires i <= |q|
  {
    if i == 0 then pos
    else
      var d := DrawOf(env, q, path, op, pos, i - 1);
      if q[i - 1].kind == ERRNO && Triggered(env, q[i - 1], path, op, env.random(d)) then d + 2 else d + 1
  }

  predicate TriggeredAt(env: Env, q: seq<Fault>, path: string, op: Op, pos: nat, i: nat)
    requires i < |q|
  {
    Triggered(env, q[i], path, op, env.random(DrawOf(env, q, path, op, pos, i)))
  }

  /** Rule i sets the return code. */
  predicate Decides(env: Env, q: seq<Fault>, path: string, op: Op, pos: nat, i: nat)
    requires i < |q|
  {
    (q[i].kind == NOOP || q[i].kind == ERRNO) && TriggeredAt(env, q, path, op, pos, i)
  }

  function CodeOf(env: Env, q: seq<Fault>, path: string, op: Op, pos: nat, i: nat): int
    requires i < |q|
  {
    if q[i].kind == NOOP then NOOP_CODE
    else 0 - env.errnoOf(op, env.random(DrawOf(env, q, path, op, pos, i) + 1))
  }

  lemma {:induction false} DrawOfPrefix(env: Env, q: seq<Fault>, path: string, op: Op, pos: nat, n: nat, i: nat)
    requires i <= n <= |q|
    ensures DrawOf(env, q[..n], path, op, pos, i) == DrawOf(env, q, path, op, pos, i)
  {
    if i == 0 {
    } else {
      DrawOfPrefix(env, q, path, op, pos, n, i - 1);
    }
  }

  /** Rule i is the last one that sets the return code. */
  ghost predicate DecidesLast(env: Env, q: seq<Fault>, path: string, op: Op, pos: nat, i: nat)
    requires i < |q|
  {
    && Decides(env, q, path, op, pos, i)
    && forall j :: i < j < |q| ==> !Decides(env, q, path, op, pos, j)
  }

  lemma {:induction false} PrefixAgrees(env: Env, q: seq<Fault>, path: string, op: Op, pos: nat, n: nat, i: nat)
    requires i < n <= |q|
    ensures Decides(env, q[..n], path, op, pos, i) == Decides(env, q, path, op, pos, i)
    ensures CodeOf(env, q[..n], path, op, pos, i) == CodeOf(env, q, path, op, pos, i)
  {
    hide Triggered, DrawOf;
    DrawOfPrefix(env, q, path, op, pos, n, i);
  }

  /** The last turn of the loop. */
  lemma {:induction false} LastStep(env: Env, q: seq<Fault>, path: string, op: Op, pos: nat)
    requires |q| > 0
    requires Resolve(env, q[..|q| - 1], path, op, pos).pos == DrawOf(env, q, path, op, pos, |q| - 1)
    ensures var n := |q| - 1;
      var r := Resolve(env, q, path, op, pos);
      && r.pos == DrawOf(env, q, path, op, pos, |q|)
      && r.rc == if Decides(env, q, path, op, pos, n) then CodeOf(env, q, path, op, pos, n)
                 else Resolve(env, q[..n], path, op, pos).rc
  {
  }

  /** Fault resolution: the code is that of the last noop or errno rule that triggers, and 0 if none does;
      kill and slowdown rules never change it; the draws are exactly those of DrawOf. */
  lemma {:induction false} LastTriggeredRuleWins(env: Env, q: seq<Fault>, path: string, op: Op, pos: nat)
    ensures var r := Resolve(env, q, path, op, pos);
      && r.pos == DrawOf(env, q, path, op, pos, |q|)
      && (r.rc == 0 <==> forall i :: 0 <= i < |q| ==> !Decides(env, q, path, op, pos, i))
      && (r.rc != 0 ==>
           exists i :: 0 <= i < |q| && DecidesLast(env, q, path, op, pos, i) && r.rc == CodeOf(env, q, path, op, pos, i))
  {
    hide Triggered, DrawOf, Decides, CodeOf, Resolve;
    if |q| == 0 {
      EmptyQueue(env, path, op, pos);
    } else {
      var n := |q| - 1;
      var init := q[..n];
      LastTriggeredRuleWins(env, init, path, op, pos);
      DrawOfPrefix(env, q, path, op, pos, n, n);
      LastStep(env, q, path, op, pos);
      CodesAreNotZero(env, q, path, op, pos);
      forall i | 0 <= i < n
        ensures Decides(env, init, path, op, pos, i) == Decides(env, q, path, op, pos, i)
        ensures CodeOf(env, init, path, op, pos, i) == CodeOf(env, q, path, op, pos, i)
      {
        PrefixAgrees(env, q, path, op, pos, n, i);
      }
      if Decides(env, q, path, op, pos, n) {
        assert DecidesLast(env, q, path, op, pos, n);
      } else if Resolve(env, q, path, op, pos).rc != 0 {
        var i :| 0 <= i < n && DecidesLast(env, init, path, op, pos, i)
              && Resolve(env, init, path, op, pos).rc == CodeOf(env, init, path, op, pos, i);
        assert DecidesLast(env, q, path, op, pos, i);
      }
    }
  }

  lemma {:induction false} EmptyQueue(env: Env, path: string, op: Op, pos: nat)
    ensures Resolve(env, [], path, op, pos) == Resolution(0, pos, []) && DrawOf(env, [], path, op, pos, 0) == pos
  {
  }

  lemma {:induction false} CodesAreNotZero(env: Env, q: seq<Fault>, path: string, op: Op, pos: nat)
    ensures forall i :: 0 <= i < |q| ==> CodeOf(env, q, path, op, pos, i) != 0
  {
  }

  /** The number of rules among the first n that are errno rules and trigger. */
  function ErrnoTriggers(env: Env, q: seq<Fault>, path: string, op: Op, pos: nat, n: nat): nat
    requires n <= |q|
  {
    if n == 0 then 0
    else
      ErrnoTriggers(env, q, path, op, pos, n - 1)
      + if q[n - 1].kind == ERRNO && TriggeredAt(env, q, path, op, pos, n - 1) then 1 else 0
  }

  /** One draw per rule, plus one per errno rule that triggers. */
  lemma {:induction false} DrawCount(env: Env, q: seq<Fault>, path: string, op: Op, pos: nat, n: nat)
    requires n <= |q|
    ensures DrawOf(env, q, path, op, pos, n) == pos + n + ErrnoTriggers(env, q, path, op, pos, n)
  {
    if n == 0 {
    } else {
      DrawCount(env, q, path, op, pos, n - 1);
    }
  }

  /** The side effects of the first n rules, in order: a kill for each kill rule that triggers while a caller
      is known, a sleep for each slowdown rule that triggers, if its duration is below a second. */
  function EffectsOf(env: Env, q: seq<Fault>, path: string, op: Op, pos: nat, n: nat): seq<Effect>
    requires n <= |q|
  {
    if n == 0 then []
    else
      EffectsOf(env, q, path, op, pos, n - 1)
      + if !TriggeredAt(env, q, path, op, pos, n - 1) then []
        else if q[n - 1].kind == KILL_CALLER then KillEffect(env, DrawOf(env, q, path, op, pos, n))
        else if q[n - 1].kind == SLOWDOWN then SleepEffect(q[n - 1].duration)
        else []
  }

  lemma {:induction false} EffectsPrefix(env: Env, q: seq<Fault>, path: string, op: Op, pos: nat, m: nat, n: nat)
    requires n <= m <= |q|
    ensures EffectsOf(env, q[..m], path, op, pos, n) == EffectsOf(env, q, path, op, pos, n)
  {
    if n == 0 {
    } else {
      hide Triggered, DrawOf;
      EffectsPrefix(env, q, path, op, pos, m, n - 1);
      DrawOfPrefix(env, q, path, op, pos, m, n - 1);
      DrawOfPrefix(env, q, path, op, pos, m, n);
    }
  }

  lemma {:induction false} LastEffect(env: Env, q: seq<Fault>, path: string, op: Op, pos: nat, acc: Resolution)
    requires |q| > 0 && acc.pos == DrawOf(env, q, path, op, pos, |q| - 1)
    requires acc.effects == EffectsOf(env, q, path, op, pos, |q| - 1)
    ensures Step(env, q[|q| - 1], path, op, acc).effects == EffectsOf(env, q, path, op, pos, |q|)
  {
  }

  /** Kills and sleeps happen exactly for the kill rules that trigger with a known caller and the slowdown
      rules that trigger with a duration below a second, in queue order. */
  lemma {:induction false} EffectsInOrder(env: Env, q: seq<Fault>, path: string, op: Op, pos: nat)
    ensures Resolve(env, q, path, op, pos).effects == EffectsOf(env, q, path, op, pos, |q|)
  {
    if |q| == 0 {
    } else {
      hide Step, DrawOf, EffectsOf;
      var n := |q| - 1;
      EffectsInOrder(env, q[..n], path, op, pos);
      EffectsPrefix(env, q, path, op, pos, n, n);
      LastTriggeredRuleWins(env, q[..n], path, op, pos);
      DrawOfPrefix(env, q, path, op, pos, n, n);
      LastEffect(env, q, path, op, pos, Resolve(env, q[..n], path, op, pos));
    }
  }

  /** unreliablefs.conf(5) promises a slowdown of the given duration. A slowdown rule that always triggers puts
      the process to sleep for it when it is below a second, and does nothing at all otherwise, since
      nanosleep refuses so large a tv_nsec. */
  lemma {:induction false} LongSlowdownIsNone(env: Env, path: string, op: Op, pos: nat, duration: nat)
    ensures var q := [Fault(SLOWDOWN, None, None, 100, duration)];
      Resolve(env, q, path, op, pos).effects == if duration < NANOSECONDS then [Sleep(duration)] else []
    ensures Resolve(env, [Fault(SLOWDOWN, None, None, 100, 1_000_000_000)], path, op, pos) == Resolution(0, pos + 1, [])
  {
    var q := [Fault(SLOWDOWN, None, None, 100, duration)];
    var second := [Fault(SLOWDOWN, None, None, 100, 1_000_000_000)];
    assert q[..0] == [] && second[..0] == [];
    assert Resolve(env, [], path, op, pos) == Resolution(0, pos, []);
    assert [] + SleepEffect(duration) == SleepEffect(duration);
  }

  // ----- one rule, spelled out -----

  /** The names that op_regexp is matched against. */
  ghost predicate Named(op: Op, name: string) {
    && (op.Mkdir? ==> name == "mkdir") && (op.Unlink? ==> name == "unlink") && (op.Rename? ==> name == "rename")
    && (op.Truncate? ==> name == "truncate") && (op.Open? ==> name == "open") && (op.Create? ==> name == "creat")
    && (op.Read? ==> name == "read") && (op.Write? ==> name == "write") && (op.Flush? ==> name == "flush")
    && (op.Release? ==> name == "release")
  }

  /** The rule strikes an operation of this name on this path: its threshold draw modulo 101 is at most its
      probability, and each of its regular expressions is absent or matches. */
  ghost predicate Strikes(env: Env, f: Fault, path: string, name: string, draw: nat) {
    && draw % 101 <= f.probability
    && (f.pathRegexp == None || env.matches(f.pathRegexp.value, path))
    && (f.opRegexp == None || env.matches(f.opRegexp.value, name))
  }

  lemma {:induction false} TriggeredStrikes(env: Env, f: Fault, path: string, op: Op, name: string, draw: nat)
    requires Named(op, name)
    ensures Triggered(env, f, path, op, draw) <==> Strikes(env, f, path, name, draw)
  {
  }

  /** A single rule: when exactly it injects a code and which one, what else it does, and what it draws. */
  lemma {:induction false} OneRule(env: Env, f: Fault, path: string, op: Op, name: string, pos: nat)
    requires Named(op, name)
    ensures var r := Resolve(env, [f], path, op, pos);
      var strikes := env.random(pos) % 101 <= f.probability
        && (f.pathRegexp == None || env.matches(f.pathRegexp.value, path))
        && (f.opRegexp == None || env.matches(f.opRegexp.value, name));
      && (r.rc != 0 <==> strikes && KIND_NAMES[f.kind] in ["errinj_noop", "errinj_errno"])
      && (strikes && KIND_NAMES[f.kind] == "errinj_noop" ==> r.rc == 999)
      && (strikes && KIND_NAMES[f.kind] == "errinj_errno" ==> r.rc == 0 - env.errnoOf(op, env.random(pos + 1)))
      && r.pos == pos + (if strikes && KIND_NAMES[f.kind] == "errinj_errno" then 2 else 1)
      && r.effects == (if strikes && KIND_NAMES[f.kind] == "errinj_kill_caller" && env.caller(pos + 1) then [Kill]
                       else if strikes && KIND_NAMES[f.kind] == "errinj_slowdown" && f.duration < 1_000_000_000 then [Sleep(f.duration)]
                       else [])
  {
    KindNames(f.kind);
    EmptyQueue(env, path, op, pos);
    assert [f][..0] == [];
  }

  /** What one rule makes of code, draws and effects. */
  ghost predicate Treats(env: Env, f: Fault, path: string, op: Op, name: string, before: Resolution, after: Resolution) {
    var strikes, kind := Strikes(env, f, path, name, env.random(before.pos)), KIND_NAMES[f.kind];
    && after.rc == (if strikes && kind == "errinj_noop" then 999
                    else if strikes && kind == "errinj_errno" then 0 - env.errnoOf(op, env.random(before.pos + 1))
                    else before.rc)
    && after.pos == before.pos + (if strikes && kind == "errinj_errno" then 2 else 1)
    && after.effects == before.effects
         + (if strikes && kind == "errinj_kill_caller" && env.caller(after.pos) then [Kill]
            else if strikes && kind == "errinj_slowdown" && f.duration < 1_000_000_000 then [Sleep(f.duration)]
            else [])
  }

  lemma {:induction false} StepTreats(env: Env, f: Fault, path: string, op: Op, name: string, acc: Resolution)
    requires Named(op, name)
    ensures Treats(env, f, path, op, name, acc, Step(env, f, path, op, acc))
  {
    hide Triggered, Strikes, Named;
    KindNames(f.kind);
    TriggeredStrikes(env, f, path, op, name, env.random(acc.pos));
  }

  /** A rule anywhere in a queue: when it decides the code and which one, and what it adds to the effects. */
  lemma {:induction false} RuleInQueue(env: Env, q: seq<Fault>, path: string, op: Op, name: string, pos: nat, i: nat)
    requires Named(op, name) && i < |q|
    ensures var f, draw, d := q[i], DrawOf(env, q, path, op, pos, i), DrawOf(env, q, path, op, pos, i + 1);
      var strikes, kind := Strikes(env, f, path, name, env.random(draw)), KIND_NAMES[f.kind];
      && (Decides(env, q, path, op, pos, i) <==> strikes && kind in ["errinj_noop", "errinj_errno"])
      && (kind == "errinj_noop" ==> CodeOf(env, q, path, op, pos, i) == 999)
      && (kind == "errinj_errno" ==> CodeOf(env, q, path, op, pos, i) == 0 - env.errnoOf(op, env.random(draw + 1)))
      && d == draw + (if strikes && kind == "errinj_errno" then 2 else 1)
      && EffectsOf(env, q, path, op, pos, i + 1) == EffectsOf(env, q, path, op, pos, i)
           + (if strikes && kind == "errinj_kill_caller" && env.caller(d) then [Kill]
              else if strikes && kind == "errinj_slowdown" && f.duration < 1_000_000_000 then [Sleep(f.duration)]
              else [])
  {
    hide Triggered, Strikes, Named;
    KindNames(q[i].kind);
    TriggeredStrikes(env, q[i], path, op, name, env.random(DrawOf(env, q, path, op, pos, i)));
  }

  // ----- probabilities -----

  /** The thresholds at which a rule fires: min(p, 100) + 1 of the 101 that can be drawn. */
  lemma {:induction false} FiringThresholds(p: nat, n: nat)
    requires n <= 101
    ensures |set d: nat | d < n && Fires(d, p)| == if p + 1 < n then p + 1 else n
  {
    if n == 0 {
      assert (set d: nat | d < 0 && Fires(d, p)) == {};
    } else {
      FiringThresholds(p, n - 1);
      var init := set d: nat | d < n - 1 && Fires(d, p);
      var all := set d: nat | d < n && Fires(d, p);
      assert Fires(n - 1, p) <==> n - 1 <= p;
      assert all == if n - 1 <= p then init + {n - 1} else init;
    }
  }

  /** unreliablefs.conf(5) says that probability 0 never fires and probability 100 always does. The second
      is true, of 100 and everything above. The first is not: whatever the probability, some draws fire it,
      and a rule is silent exactly on the draws whose remainder by 101 exceeds its probability. */
  lemma {:induction false} ProbabilityZeroIsNotNever(p: nat)
    ensures Fires(0, 0)
    ensures exists draw: nat :: Fires(draw, p)
    ensures forall draw: nat :: !Fires(draw, p) <==> draw % 101 > p
    ensures (forall draw: nat :: Fires(draw, p)) <==> p >= 100
  {
    assert Fires(0, p);
    assert !Fires(100, p) <==> p < 100;
  }
}
