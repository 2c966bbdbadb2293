/** unreliablefs_errinj.c over an explicit C heap: the option handler, loading and deleting a
    configuration, and error_inject with its hot reload under the mutex. */
module FaultEngine {
  import opened IniGrammar
  import opened FaultConfig
  import opened FaultResolution
  import opened CHeap
  import IniParser

  /** What opening the control file finds. */
  datatype Disk = Absent | Unreadable | Content(text: string)

  /** The rules a control file configures, if it can be opened or is absent. */
  function RulesOf(disk: Disk): seq<Fault> {
    if disk.Content? then QueueAfter(Calls(Outcomes(disk.text))) else []
  }

  /** The active rules, and how many random numbers have been drawn. */
  datatype EngineState = EngineState(rules: seq<Fault>, drawn: nat)

  /** One call of error_inject: on which path, for which operation, and what the control file then is. */
  datatype Request = Request(path: string, op: Op, disk: Disk)

  datatype Answer = Answer(rc: int, effects: seq<Effect>)

  /** Touching the control file reloads it and injects nothing; any other call is resolved by the rules. */
  function Inject(env: Env, configPath: string, st: EngineState, r: Request): (EngineState, Answer) {
    if r.path == configPath then (EngineState(RulesOf(r.disk), st.drawn), Answer(0, []))
    else
      var res := Resolve(env, st.rules, r.path, r.op, st.drawn);
      (EngineState(st.rules, res.pos), Answer(res.rc, res.effects))
  }

  /** A whole run of error_inject. */
  function InjectAll(env: Env, configPath: string, st: EngineState, rs: seq<Request>): (EngineState, seq<Answer>) {
    if rs == [] then (st, [])
    else
      var n := |rs| - 1;
      var (mid, answers) := InjectAll(env, configPath, st, rs[..n]);
      var (end, a) := Inject(env, configPath, mid, rs[n]);
      (end, answers + [a])
  }

  /** The reloads that find the control file there but cannot open it. */
  function FailedReloads(configPath: string, rs: seq<Request>): nat {
    if rs == [] then 0
    else FailedReloads(configPath, rs[..|rs| - 1]) + if FailsToReload(configPath, rs[|rs| - 1]) then 1 else 0
  }

  predicate FailsToReload(configPath: string, r: Request) {
    r.path == configPath && r.disk.Unreadable?
  }

  // ----- what the specification says, spelled out -----

  /** The rules are what the lines of the control file mean, and none when it is absent or cannot be opened. */
  lemma {:induction false} RulesAre(disk: Disk)
    ensures RulesOf(disk) == if disk.Content? then Meaning(Calls(Outcomes(disk.text))) else []
  {
    hide QueueAfter, Meaning, Calls, Outcomes;
    if disk.Content? {
      QueueIsMeaning(Calls(Outcomes(disk.text)));
    }
  }

  /** Rule i injects a code into an operation of this name. */
  ghost predicate InjectsAt(env: Env, q: seq<Fault>, path: string, op: Op, name: string, drawn: nat, i: nat)
    requires i < |q|
  {
    && KIND_NAMES[q[i].kind] in ["errinj_noop", "errinj_errno"]
    && Strikes(env, q[i], path, name, env.random(DrawOf(env, q, path, op, drawn, i)))
  }

  /** Rule i is the last one that does. */
  ghost predicate InjectsLast(env: Env, q: seq<Fault>, path: string, op: Op, name: string, drawn: nat, i: nat)
    requires i < |q|
  {
    && InjectsAt(env, q, path, op, name, drawn, i)
    && forall j :: i < j < |q| ==> !InjectsAt(env, q, path, op, name, drawn, j)
  }

  lemma {:induction false} InjectsDecides(env: Env, q: seq<Fault>, path: string, op: Op, name: string, drawn: nat, i: nat)
    requires Named(op, name) && i < |q|
    ensures InjectsAt(env, q, path, op, name, drawn, i) <==> Decides(env, q, path, op, drawn, i)
    ensures InjectsAt(env, q, path, op, name, drawn, i) ==>
      CodeOf(env, q, path, op, drawn, i) == if KIND_NAMES[q[i].kind] == "errinj_noop" then 999
        else 0 - env.errnoOf(op, env.random(DrawOf(env, q, path, op, drawn, i) + 1))
  {
    hide DrawOf, Decides, CodeOf, Strikes;
    RuleInQueue(env, q, path, op, name, drawn, i);
  }

  /** A request for the control path is answered 0 and leaves the rules that the file then means. Any other
      keeps the rules, and is injected into exactly when some noop or errno rule strikes its path and name:
      with 999 or a negated errno, as the last such rule has it. */
  lemma {:induction false} InjectExactly(env: Env, configPath: string, st: EngineState, r: Request, name: string)
    requires Named(r.op, name)
    ensures var (end, a) := Inject(env, configPath, st, r);
      && (r.path == configPath ==>
           && a == Answer(0, []) && end.drawn == st.drawn
           && end.rules == if r.disk.Content? then Meaning(Calls(Outcomes(r.disk.text))) else [])
      && (r.path != configPath ==>
           && end.rules == st.rules
           && (a.rc == 0 <==> forall i :: 0 <= i < |st.rules| ==> !InjectsAt(env, st.rules, r.path, r.op, name, st.drawn, i))
           && forall i :: 0 <= i < |st.rules| && InjectsLast(env, st.rules, r.path, r.op, name, st.drawn, i) ==>
                a.rc == if KIND_NAMES[st.rules[i].kind] == "errinj_noop" then 999
                        else 0 - env.errnoOf(r.op, env.random(DrawOf(env, st.rules, r.path, r.op, st.drawn, i) + 1)))
  {
    hide Resolve, DrawOf, Decides, CodeOf, RulesOf, InjectsAt, Named, Meaning, Calls, Outcomes;
    RulesAre(r.disk);
    LastTriggeredRuleWins(env, st.rules, r.path, r.op, st.drawn);
    forall i | 0 <= i < |st.rules|
      ensures InjectsAt(env, st.rules, r.path, r.op, name, st.drawn, i) <==> Decides(env, st.rules, r.path, r.op, st.drawn, i)
      ensures InjectsAt(env, st.rules, r.path, r.op, name, st.drawn, i) ==>
        CodeOf(env, st.rules, r.path, r.op, st.drawn, i)
          == if KIND_NAMES[st.rules[i].kind] == "errinj_noop" then 999
             else 0 - env.errnoOf(r.op, env.random(DrawOf(env, st.rules, r.path, r.op, st.drawn, i) + 1))
    {
      InjectsDecides(env, st.rules, r.path, r.op, name, st.drawn, i);
    }
  }

  class Engine {
    const configPath: string
    const env: Env

    var mem: Memory      // the heap
    var top: Ptr         // no cell at or above top was ever allocated
    var errors: Ptr      // conf.errors
    var locked: bool     // conf.mutex
    var drawn: nat       // how many numbers rand() has delivered
    ghost var leaked: set<Ptr>

    /** Allocated cells lie below top, so no pointer is ever handed out twice. */
    ghost predicate HeapOk()
      reads this`mem, this`top
    {
      top > 0 && 0 !in mem && forall p :: p in mem ==> p < top
    }

    /** Everything on the heap is owned by conf.errors or is leaked. */
    ghost predicate Valid()
      reads this`mem, this`top, this`errors, this`leaked
    {
      && HeapOk()
      && (errors != 0 ==> IsQueue(mem, errors) && leaked !! Reach(mem, errors))
      && mem.Keys == leaked + (if errors == 0 then {} else Reach(mem, errors))
    }

    /** The active rules. */
    ghost function Rules(): seq<Fault>
      requires Valid()
      reads this`mem, this`top, this`errors, this`leaked
    {
      if errors == 0 then [] else QueueOf(mem, errors)
    }

    method Alloc(cell: Cell) returns (p: Ptr)
      requires HeapOk()
      modifies this`mem, this`top
      ensures HeapOk() && p == old(top) && p != 0 && p !in old(mem) && top == p + 1
      ensures mem == old(mem)[p := cell]
    {
      p := top;
      mem := mem[p := cell];
      top := top + 1;
    }

    /** free: only ever called on a cell that is still allocated. */
    method Free(p: Ptr)
      requires HeapOk() && p in mem
      modifies this`mem
      ensures HeapOk() && mem == old(mem) - {p}
    {
      mem := mem - {p};
    }

    /** errinj_type_by_name: the last matching index, or -1. */
    method TypeByName(name: string) returns (idx: int)
      ensures idx == TypeOf(name)
    {
      idx := -1;
      for i := 0 to |KIND_NAMES|
        invariant -1 <= idx < i && (idx >= 0 ==> KIND_NAMES[idx] == name)
        invariant idx == -1 ==> forall j :: 0 <= j < i ==> KIND_NAMES[j] != name
      {
        if KIND_NAMES[i] == name {
          idx := i;
        }
      }
      KindNamesDistinct(idx, TypeOf(name));
    }

    /** The rule of kind k, appended if there is none yet. */
    method FindOrInsert(cfg: Ptr, k: Kind) returns (err: Ptr)
      requires HeapOk() && IsQueue(mem, cfg)
      modifies this`mem, this`top
      ensures HeapOk() && IsQueue(mem, cfg) && OnlyQueue(old(mem), mem, cfg)
      ensures var q := old(QueueOf(mem, cfg));
        var t := IndexOf(q, k, 0);
        && QueueOf(mem, cfg) == (if t < |q| then q else q + [ZeroFault(k)])
        && err == mem[cfg].entries[t]
    {
      err := 0;
      var es := mem[cfg].entries;
      ghost var q := QueueOf(mem, cfg);
      var i := 0;
      while i < |es|
        invariant i <= |es| && err == 0
        invariant IndexOf(q, k, 0) == IndexOf(q, k, i)
      {
        assert IsRule(mem, es[i]);
        if mem[es[i]].conf.kind == k {
          err := es[i];
          break;
        }
        i := i + 1;
      }
      if err == 0 {
        ghost var m: Memory := mem;
        err := Alloc(Rule(Conf(k, 0, 0, 0, 0)));
        Insert(m, cfg, err, k);
        mem := mem[cfg := Head(es + [err])];
      }
    }

    /** Free the old string, if any, and store a copy of the new one. */
    method SetString(cfg: Ptr, err: Ptr, ghost t: nat, isPath: bool, value: string)
      requires HeapOk() && IsQueue(mem, cfg) && t < |mem[cfg].entries| && err == mem[cfg].entries[t]
      modifies this`mem, this`top
      ensures HeapOk() && IsQueue(mem, cfg) && OnlyQueue(old(mem), mem, cfg)
      ensures var q := old(QueueOf(mem, cfg));
        QueueOf(mem, cfg) == q[t := if isPath then q[t].(pathRegexp := Some(value)) else q[t].(opRegexp := Some(value))]
    {
      hide QueueOf, OnlyQueue;
      ghost var m: Memory := mem;
      assert IsRule(mem, err);
      var c := mem[err].conf;
      var previous := if isPath then c.pathRegexp else c.opRegexp;
      if previous != 0 {
        Free(previous);
      }
      var p := Alloc(Chars(value));
      mem := mem[err := Rule(if isPath then c.(pathRegexp := p) else c.(opRegexp := p))];
      StoreString(m, cfg, t, isPath, p, value);
      assert mem == WithString(m, err, isPath, p, value);
    }

    method SetNumber(cfg: Ptr, err: Ptr, ghost t: nat, isProbability: bool, value: nat)
      requires HeapOk() && IsQueue(mem, cfg) && t < |mem[cfg].entries| && err == mem[cfg].entries[t]
      modifies this`mem
      ensures HeapOk() && IsQueue(mem, cfg) && OnlyQueue(old(mem), mem, cfg)
      ensures var q := old(QueueOf(mem, cfg));
        QueueOf(mem, cfg) == q[t := if isProbability then q[t].(probability := value) else q[t].(duration := value)]
    {
      ghost var m: Memory := mem;
      assert IsRule(mem, err);
      var c := mem[err].conf;
      mem := mem[err := Rule(if isProbability then c.(probability := value) else c.(duration := value))];
      StoreNumbers(m, cfg, t, mem[err].conf);
    }

    method ConfOptionHandler(cfg: Ptr, call: Call) returns (rc: int)
      requires HeapOk() && IsQueue(mem, cfg)
      modifies this`mem, this`top
      ensures HeapOk() && IsQueue(mem, cfg) && OnlyQueue(old(mem), mem, cfg)
      ensures rc == (if call.section !in ["errinj_errno", "errinj_kill_caller", "errinj_noop", "errinj_slowdown"] then -1
                     else if call.name in ["path_regexp", "op_regexp", "probability", "duration"] then 1
                     else 0)
      ensures QueueOf(mem, cfg) == Apply(old(QueueOf(mem, cfg)), call)
    {
      HandlerAnswers(call);
      var curType := TypeByName(call.section);
      if curType == -1 {
        return -1;
      }
      ghost var m: Memory := mem;
      ghost var t := IndexOf(QueueOf(mem, cfg), curType, 0);
      var err := FindOrInsert(cfg, curType);
      ghost var m1 := mem;
      rc := 1;
      if call.name == PATH_REGEXP {
        SetString(cfg, err, t, true, call.value);
      } else if call.name == OP_REGEXP {
        SetString(cfg, err, t, false, call.value);
      } else if call.name == PROBABILITY {
        SetNumber(cfg, err, t, true, AsUnsigned(Atoi(call.value)));
      } else if call.name == DURATION {
        SetNumber(cfg, err, t, false, AsUnsigned(Atoi(call.value)));
      } else {
        rc := 0;
      }
      OnlyQueueTrans(m, m1, mem, cfg);
    }
  
    /** One turn of the loop of config_delete: free the first rule and its strings. */
    method DeleteFirst(q: Ptr)
      requires HeapOk() && IsQueue(mem, q) && |mem[q].entries| > 0
      modifies this`mem
      ensures HeapOk() && IsQueue(mem, q) && |mem[q].entries| == |old(mem)[q].entries| - 1
      ensures Reach(mem, q) <= old(Reach(mem, q)) && mem - Reach(mem, q) == old(mem) - old(Reach(mem, q))
    {
      hide AreRules, OwnedByAll, Reach;
      var err := mem[q].entries[0];
      ghost var m: Memory := mem;
      Remove(m, q);
      FirstIsRule(m, q);
      ghost var gone: set<Ptr> := Owned(m, err);
      var c := mem[err].conf;
      if c.pathRegexp != 0 {
        Free(c.pathRegexp);
      }
      if c.opRegexp != 0 {
        Free(c.opRegexp);
      }
      mem := mem[q := Head(mem[q].entries[1..])];
      Free(err);
      assert mem == (m - gone)[q := Head(m[q].entries[1..])];
    }

    /** config_delete: frees every rule with its strings, then the queue head. */
    method ConfigDelete(q: Ptr)
      requires HeapOk() && (q != 0 ==> IsQueue(mem, q))
      modifies this`mem
      ensures HeapOk()
      ensures mem == if q == 0 then old(mem) else old(mem) - old(Reach(mem, q))
    {
      if q == 0 {
        return;
      }
      while |mem[q].entries| > 0
        invariant HeapOk() && IsQueue(mem, q)
        invariant Reach(mem, q) <= old(Reach(mem, q)) && mem - Reach(mem, q) == old(mem) - old(Reach(mem, q))
        decreases |mem[q].entries|
      {
        DeleteFirst(q);
      }
      assert Reach(mem, q) == {q};
      Free(q);
    }

    /** The handler calls of a parse, one after the other. */
    method HandleAll(q: Ptr, calls: seq<Call>)
      requires HeapOk() && IsQueue(mem, q) && QueueOf(mem, q) == []
      modifies this`mem, this`top
      ensures HeapOk() && IsQueue(mem, q) && OnlyQueue(old(mem), mem, q)
      ensures QueueOf(mem, q) == QueueAfter(calls)
    {
      hide IsQueue, QueueOf, OnlyQueue, Apply;
      ghost var m: Memory := mem;
      OnlyQueueRefl(m, q);
      var i := 0;
      while i < |calls|
        invariant i <= |calls|
        invariant HeapOk() && IsQueue(mem, q) && OnlyQueue(m, mem, q)
        invariant QueueOf(mem, q) == QueueAfter(calls[..i])
      {
        ghost var before: Memory := mem;
        var rc := ConfOptionHandler(q, calls[i]);
        assert calls[..i + 1][..i] == calls[..i];
        OnlyQueueTrans(m, before, mem, q);
        i := i + 1;
      }
      assert calls[..i] == calls;
    }

    /** config_init: a fresh queue, filled from the control file. When the file is there but cannot be
        opened the new queue head is dropped without being freed. */
    method ConfigInit(disk: Disk) returns (q: Ptr)
      requires HeapOk()
      modifies this`mem, this`top, this`leaked
      ensures HeapOk()
      ensures q == 0 <==> disk.Unreadable?
      ensures disk.Unreadable? ==>
        && leaked == old(leaked) + {old(top)} && old(top) !in old(mem)
        && mem == old(mem)[old(top) := Head([])]
      ensures !disk.Unreadable? ==>
        && leaked == old(leaked) && IsQueue(mem, q)
        && QueueOf(mem, q) == (if disk.Content? then Meaning(Calls(Outcomes(disk.text))) else [])
        && Reach(mem, q) !! old(mem).Keys && mem.Keys == old(mem).Keys + Reach(mem, q)
    {
      hide QueueAfter, Meaning, Outcomes, Calls;
      RulesAre(disk);
      q := Alloc(Head([]));
      assert OwnedByAll(mem, []) == {};
      ghost var m: Memory := mem;
      if disk.Absent? {
        return;
      }
      if disk.Unreadable? {
        leaked := leaked + {q};
        return 0;
      }
      var error, calls := IniParser.ParseStream(disk.text, ConfigHandler());
      HandleAll(q, calls);
      FreshQueue(old(mem), m, mem, q);
    }
  
    ghost function State(): EngineState
      requires Valid()
      reads this`mem, this`top, this`errors, this`leaked, this`drawn
    {
      EngineState(Rules(), drawn)
    }

    /** Load the control file into a heap that holds nothing but what has leaked. */
    method Load(disk: Disk)
      requires HeapOk() && mem.Keys == leaked
      modifies this`mem, this`top, this`leaked, this`errors
      ensures Valid() && Rules() == if disk.Content? then Meaning(Calls(Outcomes(disk.text))) else []
      ensures |leaked| == |old(leaked)| + if disk.Unreadable? then 1 else 0
    {
      hide IsQueue, Reach, QueueOf, HeapOk, Meaning, Outcomes, Calls;
      errors := ConfigInit(disk);
    }

    /** The configuration is read once at the start. */
    constructor (configPath: string, env: Env, disk: Disk)
      ensures this.configPath == configPath && this.env == env
      ensures Valid() && !locked
      ensures State() == EngineState(if disk.Content? then Meaning(Calls(Outcomes(disk.text))) else [], 0)
      ensures |leaked| == if disk.Unreadable? then 1 else 0
    {
      hide IsQueue, Reach, QueueOf, Meaning, Outcomes, Calls;
      this.configPath := configPath;
      this.env := env;
      mem, top, errors, locked, drawn, leaked := map[], 1, 0, false, 0, {};
      new;
      Load(disk);
    }

    /** The hot reload. */
    method Reload(disk: Disk)
      requires Valid()
      modifies this`mem, this`top, this`leaked, this`errors
      ensures Valid() && Rules() == if disk.Content? then Meaning(Calls(Outcomes(disk.text))) else []
      ensures |leaked| == |old(leaked)| + if disk.Unreadable? then 1 else 0
    {
      hide IsQueue, Reach, QueueOf, Meaning, Outcomes, Calls;
      ConfigDelete(errors);
      Load(disk);
    }

    /** One turn of the loop of error_inject, on the rule at err. */
    method Turn(err: Ptr, path: string, op: Op, rc: int, effects: seq<Effect>) returns (rc': int, effects': seq<Effect>)
      requires IsRule(mem, err)
      modifies this`drawn
      ensures Resolution(rc', drawn, effects')
           == Step(env, FaultAt(mem, err), path, op, Resolution(rc, old(drawn), effects))
      ensures forall name :: Named(op, name) ==>
        Treats(env, FaultAt(mem, err), path, op, name, Resolution(rc, old(drawn), effects), Resolution(rc', drawn, effects'))
    {
      hide Treats, Named;
      forall name | Named(op, name)
        ensures Treats(env, FaultAt(mem, err), path, op, name, Resolution(rc, drawn, effects),
                       Step(env, FaultAt(mem, err), path, op, Resolution(rc, drawn, effects)))
      {
        StepTreats(env, FaultAt(mem, err), path, op, name, Resolution(rc, drawn, effects));
      }
      rc', effects' := rc, effects;
      var c := mem[err].conf;
      var p := RandRange(env.random(drawn), MIN_PROBABILITY, MAX_PROBABILITY);
      drawn := drawn + 1;
      if !(p <= c.probability) {
        return;
      }
      if !RegexMatched(env, TextAt(mem, c.pathRegexp), path) {
        return;
      }
      if !RegexMatched(env, TextAt(mem, c.opRegexp), OpName(op)) {
        return;
      }
      if c.kind == NOOP {
        rc' := NOOP_CODE;
      } else if c.kind == KILL_CALLER {
        if env.caller(drawn) {
          effects' := effects + [Kill];
        }
      } else if c.kind == ERRNO {
        var e: int := env.errnoOf(op, env.random(drawn));
        drawn := drawn + 1;
        rc' := 0 - e;
      } else {
        if c.duration < NANOSECONDS {
          effects' := effects + [Sleep(c.duration)];
        }
      }
    }

    method ResolveAll(path: string, op: Op) returns (rc: int, effects: seq<Effect>)
      requires Valid() && errors != 0
      modifies this`drawn
      ensures Resolution(rc, drawn, effects) == Resolve(env, Rules(), path, op, old(drawn))
    {
      hide Step, OwnedByAll, Owned, Reach;
      rc, effects := 0, [];
      var es := mem[errors].entries;
      ghost var q := Rules();
      var i := 0;
      while i < |es|
        invariant i <= |es|
        invariant Resolution(rc, drawn, effects) == Resolve(env, q[..i], path, op, old(drawn))
      {
        assert IsRule(mem, es[i]) && q[i] == FaultAt(mem, es[i]);
        assert q[..i + 1][..i] == q[..i];
        rc, effects := Turn(es[i], path, op, rc, effects);
        i := i + 1;
      }
      assert q[..i] == q;
    }

    /** error_inject: the mutex is taken and released on every path, the control path always answers 0. */
    method ErrorInject(r: Request) returns (a: Answer)
      requires Valid() && !locked
      modifies this
      ensures Valid() && !locked
      ensures (State(), a) == Inject(env, configPath, old(State()), r)
      ensures r.path == configPath ==>
        && a == Answer(0, []) && drawn == old(drawn)
        && Rules() == if r.disk.Content? then Meaning(Calls(Outcomes(r.disk.text))) else []
      ensures |leaked| == |old(leaked)| + if FailsToReload(configPath, r) then 1 else 0
    {
      hide Resolve, RulesOf, IsQueue, Reach, QueueOf, HeapOk, Valid, Meaning, Outcomes, Calls;
      RulesAre(r.disk);
      var rc, effects := 0, [];
      locked := true;
      if r.path == configPath {
        Reload(r.disk);
      } else if errors == 0 {
        NoRules(env, r.path, r.op, drawn);
      } else {
        rc, effects := ResolveAll(r.path, r.op);
      }
      locked := false;
      a := Answer(rc, effects);
    }

    /** A whole run, then shutdown: the answers are those of the specification, and all that is left on
        the heap is one queue head for every load that found the control file unreadable. */
    method ServeAndShutDown(rs: seq<Request>) returns (answers: seq<Answer>)
      requires Valid() && !locked
      modifies this
      ensures answers == InjectAll(env, configPath, old(State()), rs).1
      ensures Valid() && !locked && errors == 0 && mem.Keys == leaked
      ensures |mem.Keys| == |old(leaked)| + FailedReloads(configPath, rs)
    {
      hide Inject, IsQueue, Reach, QueueOf, Valid;
      answers := [];
      var i := 0;
      while i < |rs|
        invariant i <= |rs| && Valid() && !locked
        invariant (State(), answers) == InjectAll(env, configPath, old(State()), rs[..i])
        invariant |leaked| == |old(leaked)| + FailedReloads(configPath, rs[..i])
      {
        assert rs[..i + 1][..i] == rs[..i];
        var a := ErrorInject(rs[i]);
        answers := answers + [a];
        i := i + 1;
      }
      assert rs[..i] == rs;
      ShutDown();
    }

    method ShutDown()
      requires Valid()
      modifies this`mem, this`errors
      ensures Valid() && errors == 0 && mem.Keys == leaked
    {
      hide IsQueue, Reach, QueueOf;
      ConfigDelete(errors);
      errors := 0;
    }
  }

  lemma {:induction false} NoRules(env: Env, path: string, op: Op, pos: nat)
    ensures Resolve(env, [], path, op, pos) == Resolution(0, pos, [])
  {
  }

  lemma {:induction false} FirstIsRule(m: Memory, q: Ptr)
    requires IsQueue(m, q) && |m[q].entries| > 0
    ensures IsRule(m, m[q].entries[0])
  {
  }

  lemma {:induction false} OnlyQueueRefl(m: Memory, q: Ptr)
    requires IsQueue(m, q)
    ensures OnlyQueue(m, m, q)
  {
  }

  /** A queue that grew from a new empty head shares nothing with the heap before it. */
  lemma {:induction false} FreshQueue(m0: Memory, m1: Memory, m2: Memory, q: Ptr)
    requires 0 !in m0 && q !in m0 && m1 == m0[q := Head([])]
    requires IsQueue(m1, q) && IsQueue(m2, q) && OnlyQueue(m1, m2, q)
    ensures Reach(m2, q) !! m0.Keys && m2.Keys == m0.Keys + Reach(m2, q)
  {
    assert OwnedByAll(m1, []) == {};
    assert Reach(m1, q) == {q};
    assert m0.Keys == m1.Keys - {q};
  }

  lemma {:induction false} KindNamesDistinct(i: int, j: int)
    requires -1 <= i < 4 && -1 <= j < 4
    requires i >= 0 && j >= 0 ==> KIND_NAMES[i] == KIND_NAMES[j]
    requires i < 0 ==> forall k :: 0 <= k < 4 ==> j >= 0 ==> KIND_NAMES[k] != KIND_NAMES[j]
    requires j < 0 && i >= 0 ==> KIND_NAMES[i] !in KIND_NAMES
    ensures i == j
  {
  }
}
