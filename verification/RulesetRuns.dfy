/** What every sequence of AddJumpRule and AddRules calls keeps, failed calls included. */
module RulesetRuns {
  import opened Wrappers
  import opened Exprs
  import opened PacketFilter
  import opened RulePrograms
  import opened Ruleset
  import opened RulesetEffects

  datatype Op = Jumping(from: string, to: string, table: string) | Adding(batch: seq<BuiltRule>)

  /** One call, successful or not, as the contracts of the two operations describe it. */
  ghost predicate OpStep(s: State, op: Op, s': State) {
    match op
    case Jumping(f, t, table) => s' == JumpSpec(s, f, t, table) || JumpFailed(s, f, t, table, s')
    case Adding(batch) => s' == AddSpec(s, batch) || AddFailed(s, batch, s')
  }

  ghost predicate Run(states: seq<State>, ops: seq<Op>) {
    |states| == |ops| + 1 && forall i :: 0 <= i < |ops| ==> OpStep(states[i], ops[i], states[i + 1])
  }

  /** A run begins anywhere, and goes on with whatever a call can leave. */
  lemma CallsMakeRuns(s0: State, states: seq<State>, ops: seq<Op>, op: Op, s': State)
    ensures Run([s0], [])
    ensures Run(states, ops) && op.Jumping? && s' == JumpSpec(states[|ops|], op.from, op.to, op.table) ==> Run(states + [s'], ops + [op])
    ensures Run(states, ops) && op.Jumping? && JumpFailed(states[|ops|], op.from, op.to, op.table, s') ==> Run(states + [s'], ops + [op])
    ensures Run(states, ops) && op.Adding? && s' == AddSpec(states[|ops|], op.batch) ==> Run(states + [s'], ops + [op])
    ensures Run(states, ops) && op.Adding? && AddFailed(states[|ops|], op.batch, s') ==> Run(states + [s'], ops + [op])
    ensures LeftoverQueue([])
  {
    hide JumpSpec, JumpFailed, AddSpec, AddFailed;
    if Run(states, ops) && OpStep(states[|ops|], op, s') {
      var all, more := states + [s'], ops + [op];
      forall i | 0 <= i < |more| ensures OpStep(all[i], more[i], all[i + 1]) {
        assert i < |ops| ==> all[i] == states[i] && all[i + 1] == states[i + 1] && more[i] == ops[i];
      }
    }
  }

  /** The batches come from the rule builders, which is the only way to make one. */
  ghost predicate BuilderBatches(ops: seq<Op>) {
    forall i :: 0 <= i < |ops| && ops[i].Adding? ==> AllBuilt(ops[i].batch)
  }

  ghost predicate AllBuilt(batch: seq<BuiltRule>) {
    forall b :: b in batch ==> IsBuilt(b.rule)
  }

  /** A queue that earlier failures left behind: appended rules from the builders. */
  ghost predicate LeftoverQueue(queue: seq<Command>) {
    forall cmd :: cmd in queue ==> cmd.AppendRule? && IsBuilt(cmd.rule)
  }

  ghost predicate IsJump(r: Rule) {
    exists to :: r == JumpProgram(to)
  }

  ghost predicate StandsBehindJumps(now: seq<Rule>, before: seq<Rule>, i: nat) {
    i + |before| <= |now| && now[i..i + |before|] == before && forall j :: 0 <= j < i ==> IsJump(now[j])
  }

  /** The list `now` is `before` with jumps in front and anything behind. */
  ghost predicate Surrounds(now: seq<Rule>, before: seq<Rule>) {
    exists i :: StandsBehindJumps(now, before, i)
  }

  /** Every chain is still there, and its rules stand together, in order, behind later jumps only. */
  ghost predicate Grown(before: Chains, now: Chains) {
    forall c :: c in before ==>
      c in now && now[c].table == before[c].table && now[c].policy == before[c].policy && Surrounds(now[c].rules, before[c].rules)
  }

  lemma SurroundsTransitive(a: seq<Rule>, b: seq<Rule>, c: seq<Rule>)
    requires Surrounds(b, a) && Surrounds(c, b)
    ensures Surrounds(c, a)
  {
    var i: nat :| StandsBehindJumps(b, a, i);
    var k: nat :| StandsBehindJumps(c, b, k);
    forall l | 0 <= l < |a| ensures c[k + i + l] == a[l] {
      assert a[l] == b[i..i + |a|][l] == b[i + l];
      assert b[i + l] == c[k..k + |b|][i + l];
    }
    forall j | 0 <= j < k + i ensures IsJump(c[j]) {
      if j >= k {
        assert c[j] == c[k..k + |b|][j - k];
      }
    }
    assert StandsBehindJumps(c, a, k + i);
  }

  lemma GrownTransitive(a: Chains, b: Chains, c: Chains)
    requires Grown(a, b) && Grown(b, c)
    ensures Grown(a, c)
  {
    forall n | n in a ensures Surrounds(c[n].rules, a[n].rules) {
      SurroundsTransitive(a[n].rules, b[n].rules, c[n].rules);
    }
  }

  /** Chains only gain built rules at the end, and new chains hold built rules only. */
  ghost predicate Appended(before: Chains, now: Chains) {
    && before.Keys <= now.Keys
    && (forall c :: c in before ==>
          now[c].table == before[c].table && now[c].policy == before[c].policy && before[c].rules <= now[c].rules)
    && forall c, i :: c in now && (if c in before then |before[c].rules| else 0) <= i < |now[c].rules| ==> IsBuilt(now[c].rules[i])
  }

  lemma {:induction false} ToolCommandsAppend(k: Kernel, queue: seq<Command>)
    requires forall cmd :: cmd in queue ==> !cmd.InsertRule? && (cmd.AppendRule? ==> IsBuilt(cmd.rule))
    ensures Appended(k.chains, ApplyAll(k, queue).chains)
    decreases |queue|
  {
    if queue != [] {
      var k' := Apply(k, queue[0]);
      ToolCommandsAppend(k', queue[1..]);
      assert Appended(k.chains, k'.chains);
      var now := ApplyAll(k, queue).chains;
      forall c, i | c in now && (if c in k.chains then |k.chains[c].rules| else 0) <= i < |now[c].rules|
        ensures IsBuilt(now[c].rules[i])
      {
        if c in k'.chains && i < |k'.chains[c].rules| {
          assert now[c].rules[i] == k'.chains[c].rules[i];
        }
      }
    }
  }

  lemma EnsureChainAppends(s: State, name: string, table: string, policy: Option<Action>)
    requires LeftoverQueue(s.queue)
    ensures Appended(s.kernel.chains, EnsureChain(s, name, table, policy).kernel.chains)
    ensures LeftoverQueue(EnsureChain(s, name, table, policy).queue)
  {
    ToolCommandsAppend(s.kernel, s.queue + [CreateChain(table, name, policy)]);
  }

  // ---- Order ----

  lemma AppendedIsGrown(before: Chains, now: Chains)
    requires Appended(before, now)
    ensures Grown(before, now)
  {
    forall c | c in before ensures Surrounds(now[c].rules, before[c].rules) {
      assert StandsBehindJumps(now[c].rules, before[c].rules, 0);
    }
  }

  lemma WithJumpIsGrown(cs: Chains, from: string, to: string)
    requires from in cs
    ensures Grown(cs, WithJump(cs, from, to))
  {
    forall c | c in cs ensures Surrounds(WithJump(cs, from, to)[c].rules, cs[c].rules) {
      var now := WithJump(cs, from, to)[c].rules;
      if c == from {
        assert IsJump(now[0]);
        assert StandsBehindJumps(now, cs[c].rules, 1);
      } else {
        assert StandsBehindJumps(now, cs[c].rules, 0);
      }
    }
  }

  /** The chains just before AddJumpRule inserts its rule, and what becomes of them. */
  lemma JumpStages(s: State, from: string, to: string, table: string)
    requires LeftoverQueue(s.queue)
    ensures var s1, s2 := EnsureChain(s, from, table, None), BothChains(s, from, to, table);
            && Appended(s.kernel.chains, s1.kernel.chains) && Appended(s1.kernel.chains, s2.kernel.chains)
            && Appended(s2.kernel.chains, s2.Flushed().kernel.chains)
            && LeftoverQueue(s1.queue) && LeftoverQueue(s2.queue)
            && from in s2.kernel.chains
            && (HasJump(s2.kernel.chains[from].rules, to) ==> JumpSpec(s, from, to, table) == s2)
            && (!HasJump(s2.kernel.chains[from].rules, to) ==>
                  && JumpSpec(s, from, to, table).queue == []
                  && from in s2.Flushed().kernel.chains
                  && JumpSpec(s, from, to, table).kernel.chains == WithJump(s2.Flushed().kernel.chains, from, to))
  {
    var s1, s2 := EnsureChain(s, from, table, None), BothChains(s, from, to, table);
    EnsureChainAppends(s, from, table, None);
    EnsureChainAppends(s1, to, table, None);
    EnsureChainExists(s, from, table, None);
    ToolCommandsAppend(s2.kernel, s2.queue);
    if !HasJump(s2.kernel.chains[from].rules, to) {
      JumpSpecInserts(s, from, to, table);
    }
  }

  lemma FilterNewIsLeftover(k: Kernel, batch: seq<BuiltRule>)
    requires AllBuilt(batch)
    ensures LeftoverQueue(FilterNew(k, batch))
  {
  }

  /** The stages of AddJumpRule as growth from the start. */
  lemma StagesGrow(s: State, from: string, to: string, table: string)
    requires LeftoverQueue(s.queue)
    ensures var s1, s2 := EnsureChain(s, from, table, None), BothChains(s, from, to, table);
            && Grown(s.kernel.chains, s1.kernel.chains) && Grown(s.kernel.chains, s2.kernel.chains)
            && Grown(s.kernel.chains, s2.Flushed().kernel.chains)
  {
    JumpStages(s, from, to, table);
    var s1, s2 := EnsureChain(s, from, table, None), BothChains(s, from, to, table);
    AppendedIsGrown(s.kernel.chains, s1.kernel.chains);
    AppendedIsGrown(s1.kernel.chains, s2.kernel.chains);
    AppendedIsGrown(s2.kernel.chains, s2.Flushed().kernel.chains);
    GrownTransitive(s.kernel.chains, s1.kernel.chains, s2.kernel.chains);
    GrownTransitive(s.kernel.chains, s2.kernel.chains, s2.Flushed().kernel.chains);
  }

  lemma JumpingGrows(s: State, from: string, to: string, table: string, s': State)
    requires LeftoverQueue(s.queue) && OpStep(s, Jumping(from, to, table), s')
    ensures Grown(s.kernel.chains, s'.kernel.chains) && LeftoverQueue(s'.queue)
  {
    JumpStages(s, from, to, table);
    StagesGrow(s, from, to, table);
    GrownReflexive(s.kernel.chains);
    var s2 := BothChains(s, from, to, table);
    if s' == JumpSpec(s, from, to, table) && !HasJump(s2.kernel.chains[from].rules, to) {
      var cs := s2.Flushed().kernel.chains;
      WithJumpIsGrown(cs, from, to);
      GrownTransitive(s.kernel.chains, cs, WithJump(cs, from, to));
    }
  }

  lemma AddingGrows(s: State, batch: seq<BuiltRule>, s': State)
    requires LeftoverQueue(s.queue) && AllBuilt(batch) && OpStep(s, Adding(batch), s')
    ensures Grown(s.kernel.chains, s'.kernel.chains) && LeftoverQueue(s'.queue)
  {
    GrownReflexive(s.kernel.chains);
    FilterNewIsLeftover(s.kernel, batch);
    ToolCommandsAppend(s.kernel, s.queue + FilterNew(s.kernel, batch));
    AppendedIsGrown(s.kernel.chains, AddSpec(s, batch).kernel.chains);
    forall i | 0 <= i < |batch| ensures LeftoverQueue(FilterNew(s.kernel, batch[..i])) {
      FilterNewIsLeftover(s.kernel, batch[..i]);
    }
  }

  lemma GrownReflexive(cs: Chains)
    ensures Grown(cs, cs)
  {
    forall c | c in cs ensures Surrounds(cs[c].rules, cs[c].rules) {
      assert StandsBehindJumps(cs[c].rules, cs[c].rules, 0);
    }
  }

  /**
   Order over runs. Between any two points of any run, failed calls included, the rules that were
   in a chain stay together and in order, and only jumps come to stand before them. In particular a
   jump stays ahead of every rule that was there when it was inserted.
   */
  lemma {:induction false} RunKeepsOrder(states: seq<State>, ops: seq<Op>, i: nat, j: nat)
    requires Run(states, ops) && BuilderBatches(ops) && LeftoverQueue(states[0].queue)
    requires i <= j < |states|
    ensures Grown(states[i].kernel.chains, states[j].kernel.chains) && LeftoverQueue(states[j].queue)
    decreases j
  {
    GrownReflexive(states[j].kernel.chains);
    if j > 0 {
      var last := j - 1;
      RunKeepsOrder(states, ops, if i == j then last else i, last);
      assert OpStep(states[last], ops[last], states[last + 1]);
      match ops[last] {
        case Jumping(f, t, table) => JumpingGrows(states[last], f, t, table, states[j]);
        case Adding(batch) => AddingGrows(states[last], batch, states[j]);
      }
      if i < j {
        GrownTransitive(states[i].kernel.chains, states[last].kernel.chains, states[j].kernel.chains);
      }
    }
  }

  // ---- At most one jump per pair ----

  ghost predicate Jumps(r: Rule, to: string) {
    exists j :: 0 <= j < |r| && CallsChain(r[j], to)
  }

  ghost predicate SingleJumps(cs: Chains) {
    forall c, to, i, j :: c in cs && 0 <= i < j < |cs[c].rules| ==> !(Jumps(cs[c].rules[i], to) && Jumps(cs[c].rules[j], to))
  }

  lemma BuiltNeverJumps(r: Rule, to: string)
    requires IsBuilt(r)
    ensures !Jumps(r, to)
  {
  }

  lemma HasJumpMeansSome(rules: seq<Rule>, to: string)
    ensures HasJump(rules, to) <==> exists i :: 0 <= i < |rules| && Jumps(rules[i], to)
  {
  }

  /** Built rules at the end neither add a jump nor pair up with one. */
  lemma AppendedKeepsJumps(before: Chains, now: Chains)
    requires Appended(before, now)
    ensures SingleJumps(before) ==> SingleJumps(now)
    ensures forall c, to :: c in before && !HasJump(before[c].rules, to) ==> !HasJump(now[c].rules, to)
  {
    if SingleJumps(before) {
      forall c, to, i, j | c in now && 0 <= i < j < |now[c].rules|
        ensures !(Jumps(now[c].rules[i], to) && Jumps(now[c].rules[j], to))
      {
        if c !in before || j >= |before[c].rules| {
          BuiltNeverJumps(now[c].rules[j], to);
        } else {
          assert now[c].rules[i] == before[c].rules[i] && now[c].rules[j] == before[c].rules[j];
        }
      }
    }
    forall c, to | c in before && !HasJump(before[c].rules, to) ensures !HasJump(now[c].rules, to) {
      HasJumpMeansSome(before[c].rules, to);
      HasJumpMeansSome(now[c].rules, to);
      forall i | 0 <= i < |now[c].rules| ensures !Jumps(now[c].rules[i], to) {
        if i >= |before[c].rules| {
          BuiltNeverJumps(now[c].rules[i], to);
        } else {
          assert now[c].rules[i] == before[c].rules[i];
        }
      }
    }
  }

  lemma WithJumpKeepsSingle(cs: Chains, from: string, to: string)
    requires from in cs && SingleJumps(cs) && !HasJump(cs[from].rules, to)
    ensures SingleJumps(WithJump(cs, from, to))
  {
  }

  lemma JumpingKeepsSingle(s: State, from: string, to: string, table: string, s': State)
    requires LeftoverQueue(s.queue) && SingleJumps(s.kernel.chains) && OpStep(s, Jumping(from, to, table), s')
    ensures SingleJumps(s'.kernel.chains)
  {
    JumpStages(s, from, to, table);
    var s1, s2 := EnsureChain(s, from, table, None), BothChains(s, from, to, table);
    AppendedKeepsJumps(s.kernel.chains, s1.kernel.chains);
    AppendedKeepsJumps(s1.kernel.chains, s2.kernel.chains);
    AppendedKeepsJumps(s2.kernel.chains, s2.Flushed().kernel.chains);
    if !HasJump(s2.kernel.chains[from].rules, to) {
      WithJumpKeepsSingle(s2.Flushed().kernel.chains, from, to);
    }
  }

  lemma AddingKeepsSingle(s: State, batch: seq<BuiltRule>, s': State)
    requires LeftoverQueue(s.queue) && SingleJumps(s.kernel.chains) && AllBuilt(batch) && OpStep(s, Adding(batch), s')
    ensures SingleJumps(s'.kernel.chains)
  {
    FilterNewIsLeftover(s.kernel, batch);
    ToolCommandsAppend(s.kernel, s.queue + FilterNew(s.kernel, batch));
    AppendedKeepsJumps(s.kernel.chains, AddSpec(s, batch).kernel.chains);
  }

  /** Over any run, at most one jump per pair of chains exists if that held at the start. */
  lemma {:induction false} RunKeepsSingleJumps(states: seq<State>, ops: seq<Op>, j: nat)
    requires Run(states, ops) && BuilderBatches(ops) && LeftoverQueue(states[0].queue)
    requires SingleJumps(states[0].kernel.chains) && j < |states|
    ensures SingleJumps(states[j].kernel.chains)
    decreases j
  {
    if j > 0 {
      var s, s' := states[j - 1], states[j];
      RunKeepsSingleJumps(states, ops, j - 1);
      RunKeepsOrder(states, ops, j - 1, j - 1);
      assert OpStep(s, ops[j - 1], states[j - 1 + 1]);
      match ops[j - 1]
      case Jumping(f, t, table) => JumpingKeepsSingle(s, f, t, table, s');
      case Adding(batch) => AddingKeepsSingle(s, batch, s');
    }
  }
}
