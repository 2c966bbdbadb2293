/** The C heap that holds the rule queue: cells reached through pointers, and what a queue in it means
    and owns. 0 is the NULL pointer. */
module CHeap {
  import opened FaultConfig

  type Ptr = nat

  /** struct errinj_conf. */
  datatype Conf = Conf(kind: Kind, opRegexp: Ptr, pathRegexp: Ptr, probability: nat, duration: nat)

  /** A strdup'ed string, a rule, or the head of a tail queue with its entries in order. */
  datatype Cell = Chars(text: string) | Rule(conf: Conf) | Head(entries: seq<Ptr>)

  type Memory = map<Ptr, Cell>

  /** p is NULL or points to a string. */
  predicate IsStr(m: Memory, p: Ptr) {
    p == 0 || (p in m && m[p].Chars?)
  }

  /** p points to a rule whose two strings are NULL or distinct. */
  predicate IsRule(m: Memory, p: Ptr) {
    && p in m && m[p].Rule?
    && IsStr(m, m[p].conf.opRegexp) && IsStr(m, m[p].conf.pathRegexp)
    && (m[p].conf.opRegexp == m[p].conf.pathRegexp ==> m[p].conf.opRegexp == 0)
  }

  /** What goes when the rule goes: the rule and its strings. */
  function Owned(m: Memory, p: Ptr): set<Ptr>
    requires IsRule(m, p)
  {
    {p, m[p].conf.opRegexp, m[p].conf.pathRegexp} - {0}
  }

  /** es are rules, and no two of them own a cell in common. */
  ghost predicate AreRules(m: Memory, es: seq<Ptr>) {
    && 0 !in m
    && (forall i :: 0 <= i < |es| ==> IsRule(m, es[i]))
    && (forall i, j :: 0 <= i < j < |es| ==> Owned(m, es[i]) !! Owned(m, es[j]))
  }

  ghost predicate IsQueue(m: Memory, q: Ptr) {
    q in m && m[q].Head? && AreRules(m, m[q].entries)
  }

  function TextAt(m: Memory, p: Ptr): Option<string>
    requires IsStr(m, p)
  {
    if p == 0 then None else Some(m[p].text)
  }

  function FaultAt(m: Memory, p: Ptr): Fault
    requires IsRule(m, p)
  {
    var c := m[p].conf;
    Fault(c.kind, TextAt(m, c.pathRegexp), TextAt(m, c.opRegexp), c.probability, c.duration)
  }

  ghost function FaultsOf(m: Memory, es: seq<Ptr>): (fs: seq<Fault>)
    requires AreRules(m, es)
    ensures |fs| == |es| && forall i :: 0 <= i < |es| ==> fs[i] == FaultAt(m, es[i])
  {
    seq(|es|, i requires 0 <= i < |es| => FaultAt(m, es[i]))
  }

  /** The queue as a value. */
  ghost function QueueOf(m: Memory, q: Ptr): seq<Fault>
    requires IsQueue(m, q)
  {
    FaultsOf(m, m[q].entries)
  }

  /** Everything that freeing the queue has to free. */
  ghost function Reach(m: Memory, q: Ptr): (r: set<Ptr>)
    requires IsQueue(m, q)
    ensures r <= m.Keys && q in r
  {
    {q} + OwnedByAll(m, m[q].entries)
  }

  ghost function OwnedByAll(m: Memory, es: seq<Ptr>): (r: set<Ptr>)
    requires AreRules(m, es)
    ensures r <= m.Keys
    ensures forall i :: 0 <= i < |es| ==> Owned(m, es[i]) <= r
  {
    set i, x | 0 <= i < |es| && x in Owned(m, es[i]) :: x
  }

  /** From m to m' only the queue q and what it owns changed, and nothing else appeared or disappeared. */
  ghost predicate OnlyQueue(m: Memory, m': Memory, q: Ptr)
    requires IsQueue(m, q) && IsQueue(m', q)
  {
    && m.Keys - Reach(m, q) == m'.Keys - Reach(m', q)
    && forall p :: p in m && p !in Reach(m, q) ==> p in m' && m'[p] == m[p]
  }

  lemma {:induction false} OnlyQueueTrans(m0: Memory, m1: Memory, m2: Memory, q: Ptr)
    requires IsQueue(m0, q) && IsQueue(m1, q) && IsQueue(m2, q)
    requires OnlyQueue(m0, m1, q) && OnlyQueue(m1, m2, q)
    ensures OnlyQueue(m0, m2, q)
  {
    forall p | p in m0 && p !in Reach(m0, q)
      ensures p in m2 && m2[p] == m0[p]
    {
      assert p in m0.Keys - Reach(m0, q);
    }
  }

  // ----- how the queue changes -----

  /** A rule is unaffected while its own cells are. */
  lemma {:induction false} RuleFrame(m: Memory, m': Memory, p: Ptr)
    requires IsRule(m, p) && 0 !in m
    requires forall x :: x in Owned(m, p) ==> x in m' && m'[x] == m[x]
    ensures IsRule(m', p) && Owned(m', p) == Owned(m, p) && FaultAt(m', p) == FaultAt(m, p)
  {
  }

  /** A new zeroed rule at the end. */
  lemma {:induction false} Insert(m: Memory, q: Ptr, p: Ptr, k: Kind)
    requires IsQueue(m, q) && p !in m && p != 0
    ensures var m' := m[p := Rule(Conf(k, 0, 0, 0, 0))][q := Head(m[q].entries + [p])];
      && IsQueue(m', q)
      && QueueOf(m', q) == QueueOf(m, q) + [ZeroFault(k)]
      && OnlyQueue(m, m', q)
  {
    var es := m[q].entries;
    var es' := es + [p];
    var m' := m[p := Rule(Conf(k, 0, 0, 0, 0))][q := Head(es')];
    forall i | 0 <= i < |es|
      ensures IsRule(m', es[i]) && Owned(m', es[i]) == Owned(m, es[i]) && FaultAt(m', es[i]) == FaultAt(m, es[i])
    {
      RuleFrame(m, m', es[i]);
    }
    assert Owned(m', p) == {p};
    assert AreRules(m', es');
    OwnedByMore(m, m', es, p);
  }

  lemma {:induction false} OwnedByMore(m: Memory, m': Memory, es: seq<Ptr>, p: Ptr)
    requires AreRules(m, es) && AreRules(m', es + [p]) && IsRule(m', p) && Owned(m', p) == {p}
    requires forall i :: 0 <= i < |es| ==> IsRule(m', es[i]) && Owned(m', es[i]) == Owned(m, es[i])
    ensures OwnedByAll(m', es + [p]) == OwnedByAll(m, es) + {p}
  {
    var es' := es + [p];
    assert es'[|es|] == p;
    forall x | x in OwnedByAll(m, es)
      ensures x in OwnedByAll(m', es')
    {
      var i :| 0 <= i < |es| && x in Owned(m, es[i]);
      assert es'[i] == es[i];
    }
  }

  /** Rule p changes, and only it and the strings it owns or comes to own. */
  ghost predicate OnlyRule(m: Memory, m': Memory, p: Ptr)
    requires IsRule(m, p)
  {
    && 0 !in m' && IsRule(m', p)
    && (forall x :: x in m && x !in Owned(m, p) ==> x in m' && m'[x] == m[x])
    && m'.Keys - Owned(m', p) == m.Keys - Owned(m, p)
  }

  lemma {:induction false} OtherRule(m: Memory, m': Memory, es: seq<Ptr>, t: nat, i: nat)
    requires AreRules(m, es) && t < |es| && i < |es| && i != t && OnlyRule(m, m', es[t])
    ensures IsRule(m', es[i]) && Owned(m', es[i]) == Owned(m, es[i]) && FaultAt(m', es[i]) == FaultAt(m, es[i])
    ensures Owned(m', es[i]) !! Owned(m', es[t])
  {
  }

  lemma {:induction false} RulesStay(m: Memory, m': Memory, es: seq<Ptr>, t: nat)
    requires AreRules(m, es) && t < |es| && OnlyRule(m, m', es[t])
    ensures AreRules(m', es)
    ensures forall i :: 0 <= i < |es| && i != t ==>
      Owned(m', es[i]) == Owned(m, es[i]) && FaultAt(m', es[i]) == FaultAt(m, es[i])
  {
    forall i | 0 <= i < |es| && i != t
      ensures IsRule(m', es[i]) && Owned(m', es[i]) == Owned(m, es[i]) && FaultAt(m', es[i]) == FaultAt(m, es[i])
      ensures Owned(m', es[i]) !! Owned(m', es[t])
    {
      OtherRule(m, m', es, t, i);
    }
    forall i, j | 0 <= i < j < |es|
      ensures Owned(m', es[i]) !! Owned(m', es[j])
    {
      assert i == t || j == t || Owned(m, es[i]) !! Owned(m, es[j]);
    }
  }

  /** The queue when its rule t changes. */
  lemma {:induction false} Replace(m: Memory, m': Memory, q: Ptr, t: nat)
    requires IsQueue(m, q) && t < |m[q].entries| && q in m' && m'[q] == m[q]
    requires OnlyRule(m, m', m[q].entries[t])
    ensures IsQueue(m', q)
    ensures QueueOf(m', q) == QueueOf(m, q)[t := FaultAt(m', m[q].entries[t])]
    ensures OnlyQueue(m, m', q)
  {
    var es := m[q].entries;
    RulesStay(m, m', es, t);
    OthersOwned(m, m', es, t);
    OthersOwned(m', m, es, t);
    ReachStays(m, m', q, t);
  }

  lemma {:induction false} ReachStays(m: Memory, m': Memory, q: Ptr, t: nat)
    requires IsQueue(m, q) && IsQueue(m', q) && t < |m[q].entries| && m'[q] == m[q]
    requires var es := m[q].entries;
      && OnlyRule(m, m', es[t])
      && OwnedByAll(m, es) - Owned(m, es[t]) == OwnedByAll(m', es) - Owned(m', es[t])
    ensures OnlyQueue(m, m', q)
  {
    hide OwnedByAll;
    var p := m[q].entries[t];
    var rest := OwnedByAll(m, m[q].entries) - Owned(m, p);
    assert Reach(m, q) == {q} + rest + Owned(m, p);
    assert Reach(m', q) == {q} + rest + Owned(m', p);
    assert m.Keys - Reach(m, q) == (m.Keys - Owned(m, p)) - ({q} + rest);
    assert m'.Keys - Reach(m', q) == (m'.Keys - Owned(m', p)) - ({q} + rest);
  }

  lemma {:induction false} OthersOwned(m: Memory, m': Memory, es: seq<Ptr>, t: nat)
    requires AreRules(m, es) && AreRules(m', es) && t < |es|
    requires forall i :: 0 <= i < |es| && i != t ==> Owned(m', es[i]) == Owned(m, es[i])
    ensures OwnedByAll(m, es) - Owned(m, es[t]) <= OwnedByAll(m', es) - Owned(m', es[t])
  {
  }

  /** The string cell of a rule that a new string replaces. */
  function Str(m: Memory, err: Ptr, isPath: bool): Ptr
    requires IsRule(m, err)
  {
    if isPath then m[err].conf.pathRegexp else m[err].conf.opRegexp
  }

  /** The heap after one string of the rule at err was freed and replaced by a copy of value at p. */
  function WithString(m: Memory, err: Ptr, isPath: bool, p: Ptr, value: string): Memory
    requires IsRule(m, err)
  {
    var c := m[err].conf;
    (m - {Str(m, err, isPath)})[p := Chars(value)][err := Rule(if isPath then c.(pathRegexp := p) else c.(opRegexp := p))]
  }

  lemma {:induction false} StoreString(m: Memory, q: Ptr, t: nat, isPath: bool, p: Ptr, value: string)
    requires IsQueue(m, q) && t < |m[q].entries| && p !in m && p != 0
    ensures var err := m[q].entries[t];
      var m' := WithString(m, err, isPath, p, value);
      var f := QueueOf(m, q)[t];
      && IsQueue(m', q) && OnlyQueue(m, m', q)
      && QueueOf(m', q) == QueueOf(m, q)[t := if isPath then f.(pathRegexp := Some(value)) else f.(opRegexp := Some(value))]
  {
    var err := m[q].entries[t];
    assert IsRule(m, err);
    var m' := WithString(m, err, isPath, p, value);
    assert OnlyRule(m, m', err);
    Replace(m, m', q, t);
  }

  lemma {:induction false} StoreNumbers(m: Memory, q: Ptr, t: nat, c: Conf)
    requires IsQueue(m, q) && t < |m[q].entries|
    requires var err := m[q].entries[t];
      IsRule(m, err) && c.(probability := 0, duration := 0) == m[err].conf.(probability := 0, duration := 0)
    ensures var err := m[q].entries[t];
      var m' := m[err := Rule(c)];
      && IsQueue(m', q) && OnlyQueue(m, m', q)
      && QueueOf(m', q) == QueueOf(m, q)[t := QueueOf(m, q)[t].(probability := c.probability, duration := c.duration)]
  {
    var err := m[q].entries[t];
    var m' := m[err := Rule(c)];
    assert OnlyRule(m, m', err);
    Replace(m, m', q, t);
  }

  /** The first rule is unlinked and freed with its strings. */
  lemma {:induction false} Remove(m: Memory, q: Ptr)
    requires IsQueue(m, q) && |m[q].entries| > 0
    ensures var gone := Owned(m, m[q].entries[0]);
      var m' := (m - gone)[q := Head(m[q].entries[1..])];
      && IsQueue(m', q)
      && Reach(m', q) == Reach(m, q) - gone && gone <= Reach(m, q) && q !in gone
  {
  }
}
