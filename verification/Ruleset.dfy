/**
 The nftables connection and the operations that edit the ruleset through it.

 Reads see the kernel only. Edits wait in a queue until Flush applies the whole queue in order, as
 one transaction; whether or not the kernel takes it, the queue is empty afterwards.
 */
module Ruleset {
  import opened Wrappers
  import opened Exprs
  import opened PacketFilter
  import opened RulePrograms

  /** Tables by name, and chains by name: both names are taken to be unique. */
  datatype Kernel = Kernel(tables: set<string>, chains: Chains)

  datatype Command =
    | CreateChain(table: string, name: string, policy: Option<Action>)
    | AppendRule(table: string, chain: string, rule: Rule)
    | InsertRule(table: string, chain: string, rule: Rule)

  predicate Applicable(k: Kernel, cmd: Command) {
    match cmd
    case CreateChain(t, n, _) => t in k.tables && (n in k.chains ==> k.chains[n].table == t)
    case AppendRule(t, c, _) => c in k.chains && k.chains[c].table == t
    case InsertRule(t, c, _) => c in k.chains && k.chains[c].table == t
  }

  /** Creating a chain that exists changes nothing; a rule is appended last or inserted first. */
  function Apply(k: Kernel, cmd: Command): Kernel {
    match cmd
    case CreateChain(t, n, p) =>
      if n in k.chains then k else k.(chains := k.chains[n := Chain(t, p, [])])
    case AppendRule(_, c, r) =>
      if c in k.chains then k.(chains := k.chains[c := k.chains[c].(rules := k.chains[c].rules + [r])]) else k
    case InsertRule(_, c, r) =>
      if c in k.chains then k.(chains := k.chains[c := k.chains[c].(rules := [r] + k.chains[c].rules)]) else k
  }

  function ApplyAll(k: Kernel, queue: seq<Command>): Kernel
    decreases |queue|
  {
    if queue == [] then k else ApplyAll(Apply(k, queue[0]), queue[1..])
  }

  predicate AllApplicable(k: Kernel, queue: seq<Command>)
    decreases |queue|
  {
    queue == [] || (Applicable(k, queue[0]) && AllApplicable(Apply(k, queue[0]), queue[1..]))
  }

  lemma {:induction false} ApplyConcat(k: Kernel, a: seq<Command>, b: seq<Command>)
    ensures ApplyAll(k, a + b) == ApplyAll(ApplyAll(k, a), b)
    ensures AllApplicable(k, a + b) <==> AllApplicable(k, a) && AllApplicable(ApplyAll(k, a), b)
    decreases |a|
  {
    if a == [] {
      assert a + b == b;
    } else {
      assert (a + b)[1..] == a[1..] + b;
      ApplyConcat(Apply(k, a[0]), a[1..], b);
    }
  }

  /** What the connection holds: the kernel's ruleset and the edits not flushed yet. */
  datatype State = State(kernel: Kernel, queue: seq<Command>) {
    function With(cmds: seq<Command>): State {
      State(kernel, queue + cmds)
    }

    function Flushed(): State {
      State(ApplyAll(kernel, queue), [])
    }

    function Emptied(): State {
      State(kernel, [])
    }
  }

  /** Puts a finite set in some order, as a kernel dump does. */
  method Listing(names: set<string>) returns (list: seq<string>)
    ensures forall x :: x in list <==> x in names
  {
    list := [];
    var rest := names;
    while rest != {}
      invariant rest <= names
      invariant forall x :: x in list <==> x in names - rest
      decreases rest
    {
      var x :| x in rest;
      list := list + [x];
      rest := rest - {x};
    }
  }

  /**
   The process-wide connection. `faults` counts the calls that failed for a reason of their own,
   such as a refused read or a batch the kernel did not take.
   */
  class Conn {
    var kernel: Kernel
    var queue: seq<Command>
    ghost var faults: nat

    constructor (k: Kernel)
      ensures View() == State(k, []) && faults == 0
    {
      kernel, queue, faults := k, [], 0;
    }

    ghost function View(): State
      reads this
    {
      State(kernel, queue)
    }

    method Fault() returns (hit: bool)
      modifies this`faults
      ensures faults == old(faults) + if hit then 1 else 0
    {
      hit := *;
      if hit {
        faults := faults + 1;
      }
    }

    method ListTables() returns (r: Result<seq<string>>)
      modifies this`faults
      ensures faults == old(faults) + if r.Err? then 1 else 0
      ensures r.Ok? ==> forall t :: t in r.value <==> t in kernel.tables
    {
      var hit := Fault();
      if hit { return Err; }
      var list := Listing(kernel.tables);
      return Ok(list);
    }

    /** The chains of every table. */
    method ListChains() returns (r: Result<seq<string>>)
      modifies this`faults
      ensures faults == old(faults) + if r.Err? then 1 else 0
      ensures r.Ok? ==> forall c :: c in r.value <==> c in kernel.chains
    {
      var hit := Fault();
      if hit { return Err; }
      var list := Listing(kernel.chains.Keys);
      return Ok(list);
    }

    method GetRules(table: string, chain: string) returns (r: Result<seq<Rule>>)
      modifies this`faults
      ensures faults >= old(faults)
      ensures r.Ok? ==> chain in kernel.chains && kernel.chains[chain].table == table
      ensures r.Ok? ==> r.value == kernel.chains[chain].rules && faults == old(faults)
      ensures r.Err? ==> faults > old(faults) || chain !in kernel.chains || kernel.chains[chain].table != table
    {
      var hit := Fault();
      if hit || chain !in kernel.chains || kernel.chains[chain].table != table { return Err; }
      return Ok(kernel.chains[chain].rules);
    }

    method Enqueue(cmd: Command)
      modifies this`queue
      ensures queue == old(queue) + [cmd]
    {
      queue := queue + [cmd];
    }

    method Flush() returns (s: Status)
      modifies this
      ensures faults >= old(faults)
      ensures s.Done? ==> AllApplicable(old(kernel), old(queue)) && View() == old(View()).Flushed()
      ensures s.Done? ==> faults == old(faults)
      ensures s.Failed? ==> View() == old(View()).Emptied()
      ensures s.Failed? ==> faults > old(faults) || !AllApplicable(old(kernel), old(queue))
    {
      var hit := Fault();
      if hit || !AllApplicable(kernel, queue) {
        queue := [];
        return Failed;
      }
      kernel := ApplyAll(kernel, queue);
      queue := [];
      return Done;
    }
  }

  /** The effect of NewChain with Create: a missing chain is queued, and the queue is flushed. */
  function EnsureChain(s: State, name: string, table: string, policy: Option<Action>): State {
    if name in s.kernel.chains then s else s.With([CreateChain(table, name, policy)]).Flushed()
  }

  lemma EnsureChainExists(s: State, name: string, table: string, policy: Option<Action>)
    ensures name in EnsureChain(s, name, table, policy).kernel.chains
    ensures EnsureChain(s, name, table, policy).kernel.tables == s.kernel.tables
  {
    ApplyConcat(s.kernel, s.queue, [CreateChain(table, name, policy)]);
    TablesStay(s.kernel, s.queue);
    assert ApplyAll(ApplyAll(s.kernel, s.queue), [CreateChain(table, name, policy)])
        == Apply(ApplyAll(s.kernel, s.queue), CreateChain(table, name, policy));
  }

  lemma {:induction false} TablesStay(k: Kernel, queue: seq<Command>)
    ensures ApplyAll(k, queue).tables == k.tables
    decreases |queue|
  {
    if queue != [] {
      TablesStay(Apply(k, queue[0]), queue[1..]);
    }
  }

  /**
   Finds a chain or creates it. The table is matched by name, and so is the chain, in whatever
   table it is. Finding flushes nothing; creating flushes whatever was queued before, too.
   */
  method NewChain(conn: Conn, name: string, table: string, create: bool, policy: Option<Action>) returns (s: Status)
    modifies conn
    ensures conn.faults >= old(conn.faults)
    ensures s.Done? ==> name != "" && table != "" && table in conn.kernel.tables && name in conn.kernel.chains
    ensures s.Done? ==> conn.View() == if create then EnsureChain(old(conn.View()), name, table, policy) else old(conn.View())
    ensures s.Failed? ==> conn.View() == old(conn.View()) || (create && conn.View() == old(conn.View()).Emptied())
    ensures conn.faults == old(conn.faults) ==>
              (s.Done? <==> && name != "" && table != "" && table in old(conn.kernel.tables)
                            && (name in old(conn.kernel.chains) ||
                                (create && AllApplicable(old(conn.kernel), old(conn.queue) + [CreateChain(table, name, policy)]))))
  {
    if name == "" || table == "" {
      return Failed;
    }
    var tables := conn.ListTables();
    if tables.Err? {
      return Failed;
    }
    for i := 0 to |tables.value|
      invariant conn.View() == old(conn.View()) && conn.faults == old(conn.faults)
      invariant table !in tables.value[..i]
    {
      if tables.value[i] == table {
        assert table in tables.value;
        var chains := conn.ListChains();
        if chains.Err? {
          return Failed;
        }
        for j := 0 to |chains.value|
          invariant conn.View() == old(conn.View()) && conn.faults == old(conn.faults)
          invariant name !in chains.value[..j]
        {
          if chains.value[j] == name {
            assert name in chains.value;
            return Done;
          }
        }
        assert chains.value[..|chains.value|] == chains.value;
        if create {
          EnsureChainExists(conn.View(), name, table, policy);
          conn.Enqueue(CreateChain(table, name, policy));
          s := conn.Flush();
          return;
        }
        return Failed;
      }
    }
    assert tables.value[..|tables.value|] == tables.value;
    return Failed;
  }

  /** Some rule of the list jumps to the chain. */
  ghost predicate HasJump(rules: seq<Rule>, to: string) {
    exists i, j :: 0 <= i < |rules| && 0 <= j < |rules[i]| && CallsChain(rules[i][j], to)
  }

  /** The two states AddJumpRule passes through before it looks for the jump. */
  function BothChains(s: State, from: string, to: string, table: string): State {
    EnsureChain(EnsureChain(s, from, table, None), to, table, None)
  }

  /** The effect of a successful AddJumpRule. */
  ghost function JumpSpec(s: State, from: string, to: string, table: string): State {
    var s2 := BothChains(s, from, to, table);
    if from in s2.kernel.chains && HasJump(s2.kernel.chains[from].rules, to) then s2
    else s2.With([InsertRule(table, from, JumpProgram(to))]).Flushed()
  }

  /** Where a failed AddJumpRule can stop: before, between or after creating the chains. */
  ghost predicate JumpFailed(s: State, from: string, to: string, table: string, s': State) {
    var s1 := EnsureChain(s, from, table, None);
    var s2 := EnsureChain(s1, to, table, None);
    s' == s || s' == s.Emptied() || s' == s1 || s' == s1.Emptied() || s' == s2 || s' == s2.Emptied()
  }

  /** Chain names the operation can serve from an empty queue. */
  predicate JumpServiceable(k: Kernel, from: string, to: string, table: string) {
    && from != "" && to != "" && table != "" && table in k.tables
    && (from in k.chains ==> k.chains[from].table == table)
    && (to in k.chains ==> k.chains[to].table == table)
  }

  /** Sends packets from one chain to another ahead of every rule there, unless it already does. */
  method AddJumpRule(conn: Conn, from: string, to: string, table: string) returns (s: Status)
    modifies conn
    ensures conn.faults >= old(conn.faults)
    ensures s.Done? ==> conn.View() == JumpSpec(old(conn.View()), from, to, table)
    ensures s.Failed? ==> JumpFailed(old(conn.View()), from, to, table, conn.View())
    ensures (conn.faults == old(conn.faults) && old(conn.queue) == [] && JumpServiceable(old(conn.kernel), from, to, table))
            ==> s.Done?
  {
    ghost var s0 := conn.View();
    s := NewChain(conn, from, table, true, None);
    if s.Failed? {
      return;
    }
    ghost var s1 := conn.View();
    s := NewChain(conn, to, table, true, None);
    if s.Failed? {
      return;
    }
    ghost var s2 := conn.View();
    EnsureChainExists(s0, from, table, None);
    ChainsGrow(s0, from, table, None);
    ChainsGrow(s1, to, table, None);
    var rules := conn.GetRules(table, from);
    if rules.Err? {
      return Failed;
    }
    for i := 0 to |rules.value|
      invariant conn.View() == s2
      invariant !HasJump(rules.value[..i], to)
    {
      for j := 0 to |rules.value[i]|
        invariant conn.View() == s2
        invariant forall l :: 0 <= l < j ==> !CallsChain(rules.value[i][l], to)
      {
        if CallsChain(rules.value[i][j], to) {
          assert HasJump(rules.value, to);
          return Done;
        }
      }
      assert forall a :: 0 <= a < i ==> rules.value[..i + 1][a] == rules.value[..i][a];
    }
    assert rules.value[..|rules.value|] == rules.value;
    conn.Enqueue(InsertRule(table, from, JumpProgram(to)));
    s := conn.Flush();
  }

  /** Ensuring one chain keeps every other one. */
  lemma ChainsGrow(s: State, name: string, table: string, policy: Option<Action>)
    ensures s.kernel.chains.Keys <= EnsureChain(s, name, table, policy).kernel.chains.Keys
    ensures s.queue == [] ==> EnsureChain(s, name, table, policy).queue == []
    ensures s.queue == [] && name !in s.kernel.chains ==>
              EnsureChain(s, name, table, policy).kernel.chains == s.kernel.chains[name := Chain(table, policy, [])]
  {
    var cmd := CreateChain(table, name, policy);
    ApplyConcat(s.kernel, s.queue, [cmd]);
    KeysGrow(s.kernel, s.queue + [cmd]);
    assert ApplyAll(s.kernel, [cmd]) == Apply(s.kernel, cmd);
    if s.queue == [] {
      assert s.queue + [cmd] == [cmd];
    }
  }

  lemma {:induction false} KeysGrow(k: Kernel, queue: seq<Command>)
    ensures k.chains.Keys <= ApplyAll(k, queue).chains.Keys
    decreases |queue|
  {
    if queue != [] {
      KeysGrow(Apply(k, queue[0]), queue[1..]);
    }
  }

  /** A built rule and the place it is meant for. */
  datatype BuiltRule = BuiltRule(table: string, chain: string, rule: Rule)

  /** What a rule builder was asked for. */
  datatype Request = Request(spec: Spec, chain: string, table: string) {
    function Built(): BuiltRule {
      BuiltRule(table, chain, Program(spec))
    }
  }

  function BuiltFrom(requests: seq<Request>): (b: seq<BuiltRule>)
    ensures |b| == |requests|
  {
    seq(|requests|, i requires 0 <= i < |requests| => requests[i].Built())
  }

  predicate Locatable(k: Kernel, table: string, chain: string) {
    chain != "" && table != "" && table in k.tables && chain in k.chains
  }

  class Rules {
    var rules: seq<BuiltRule>

    constructor ()
      ensures rules == []
    {
      rules := [];
    }

    /** One builder: looks its chain up and appends its rule. */
    method Build(conn: Conn, q: Request) returns (s: Status)
      modifies this, conn
      ensures conn.faults >= old(conn.faults) && conn.View() == old(conn.View())
      ensures s.Done? ==> Locatable(conn.kernel, q.table, q.chain) && rules == old(rules) + [BuiltRule(q.table, q.chain, Program(q.spec))]
      ensures s.Failed? ==> rules == old(rules)
      ensures s.Failed? ==> conn.faults > old(conn.faults) || !Locatable(conn.kernel, q.table, q.chain)
    {
      s := NewChain(conn, q.chain, q.table, false, None);
      if s.Done? {
        rules := rules + [q.Built()];
      }
    }
  }

  /** Runs the builders in order and stops at the first that fails. The connection is only read. */
  method NewRules(conn: Conn, requests: seq<Request>) returns (r: Result<Rules>)
    modifies conn
    ensures conn.faults >= old(conn.faults) && conn.View() == old(conn.View())
    ensures r.Ok? ==> fresh(r.value) && r.value.rules == BuiltFrom(requests)
    ensures r.Ok? ==> forall q :: q in requests ==> Locatable(conn.kernel, q.table, q.chain)
    ensures r.Err? ==> conn.faults > old(conn.faults) || exists q :: q in requests && !Locatable(conn.kernel, q.table, q.chain)
  {
    var rules := new Rules();
    for i := 0 to |requests|
      invariant fresh(rules) && conn.faults >= old(conn.faults) && conn.View() == old(conn.View())
      invariant rules.rules == BuiltFrom(requests[..i])
      invariant forall q :: q in requests[..i] ==> Locatable(conn.kernel, q.table, q.chain)
    {
      var s := rules.Build(conn, requests[i]);
      if s.Failed? {
        return Err;
      }
      assert BuiltFrom(requests[..i + 1]) == BuiltFrom(requests[..i]) + [requests[i].Built()];
    }
    assert requests[..|requests|] == requests;
    return Ok(rules);
  }

  /** The kernel already holds a rule that compares equal, in the chain the rule is meant for. */
  ghost predicate Installed(k: Kernel, b: BuiltRule) {
    b.chain in k.chains && exists i :: 0 <= i < |k.chains[b.chain].rules| && EqualExprs(b.rule, k.chains[b.chain].rules[i])
  }

  function AppendOf(b: BuiltRule): Command {
    AppendRule(b.table, b.chain, b.rule)
  }

  /** The rules of a batch that AddRules queues: those the kernel does not hold yet. */
  ghost function FilterNew(k: Kernel, batch: seq<BuiltRule>): (q: seq<Command>)
    decreases |batch|
  {
    if batch == [] then []
    else (if Installed(k, batch[0]) then [] else [AppendOf(batch[0])]) + FilterNew(k, batch[1..])
  }

  lemma {:induction false} FilterNewConcat(k: Kernel, a: seq<BuiltRule>, b: seq<BuiltRule>)
    ensures FilterNew(k, a + b) == FilterNew(k, a) + FilterNew(k, b)
    decreases |a|
  {
    if a == [] {
      assert a + b == b;
    } else {
      assert (a + b)[1..] == a[1..] + b;
      FilterNewConcat(k, a[1..], b);
    }
  }

  /** The effect of a successful AddRules. */
  ghost function AddSpec(s: State, batch: seq<BuiltRule>): State {
    s.With(FilterNew(s.kernel, batch)).Flushed()
  }

  /** A failed AddRules leaves the kernel alone; a failed read leaves the rules before it queued. */
  ghost predicate AddFailed(s: State, batch: seq<BuiltRule>, s': State) {
    s' == s.Emptied() || exists i :: 0 <= i < |batch| && s' == s.With(FilterNew(s.kernel, batch[..i]))
  }

  predicate Placed(k: Kernel, b: BuiltRule) {
    b.chain in k.chains && k.chains[b.chain].table == b.table
  }

  /** Appends the rules that no installed rule equals, and flushes. */
  method AddRules(conn: Conn, rules: Rules) returns (s: Status)
    modifies conn
    ensures conn.faults >= old(conn.faults)
    ensures s.Done? ==> conn.View() == AddSpec(old(conn.View()), rules.rules)
    ensures s.Done? ==> forall b :: b in rules.rules ==> Placed(old(conn.kernel), b)
    ensures s.Failed? ==> AddFailed(old(conn.View()), rules.rules, conn.View())
    ensures conn.faults == old(conn.faults) ==>
              (s.Done? <==> && (forall b :: b in rules.rules ==> Placed(old(conn.kernel), b))
                            && AllApplicable(old(conn.kernel), old(conn.queue) + FilterNew(old(conn.kernel), rules.rules)))
  {
    ghost var s0 := conn.View();
    var batch := rules.rules;
    for i := 0 to |batch|
      invariant conn.faults == old(conn.faults)
      invariant conn.View() == s0.With(FilterNew(s0.kernel, batch[..i]))
      invariant forall b :: b in batch[..i] ==> Placed(s0.kernel, b)
    {
      var r := batch[i];
      var existing := conn.GetRules(r.table, r.chain);
      if existing.Err? {
        assert batch[i] in batch;
        return Failed;
      }
      var unique := true;
      var j := 0;
      while j < |existing.value| && unique
        invariant 0 <= j <= |existing.value|
        invariant conn.faults == old(conn.faults) && conn.View() == s0.With(FilterNew(s0.kernel, batch[..i]))
        invariant unique ==> forall l :: 0 <= l < j ==> !EqualExprs(r.rule, existing.value[l])
        invariant !unique ==> Installed(s0.kernel, r)
        decreases |existing.value| - j, unique
      {
        var equal := CompareExprs(r.rule, existing.value[j]);
        if equal {
          unique := false;
        } else {
          j := j + 1;
        }
      }
      if unique {
        conn.Enqueue(AppendOf(r));
      }
      assert batch[..i + 1] == batch[..i] + [r];
      FilterNewConcat(s0.kernel, batch[..i], [r]);
    }
    assert batch[..|batch|] == batch;
    s := conn.Flush();
  }
}
