/** Repeating AddRules, and when chains stay free of rules that compare equal. */
module RulesetUniqueness {
  import opened Wrappers
  import opened Exprs
  import opened PacketFilter
  import opened RulePrograms
  import opened Ruleset
  import opened RulesetEffects
  import opened RulesetRuns

  lemma BuiltEqualsItself(r: Rule)
    requires IsBuilt(r)
    ensures EqualExprs(r, r)
  {
  }

  /** After a successful AddRules every rule of the batch is installed. */
  lemma AddedIsInstalled(s: State, batch: seq<BuiltRule>, b: BuiltRule)
    requires AllBuilt(batch) && b in batch && forall x :: x in batch ==> Placed(s.kernel, x)
    ensures Installed(AddSpec(s, batch).kernel, b)
  {
    var c := b.chain;
    BothResults(s, batch, c);
    RulesPersist(s.kernel, s.queue, c);
    var now := AddSpec(s, batch).kernel.chains[c].rules;
    var witness_: Rule;
    if Installed(s.kernel, b) {
      var i :| 0 <= i < |s.kernel.chains[c].rules| && EqualExprs(b.rule, s.kernel.chains[c].rules[i]);
      witness_ := s.kernel.chains[c].rules[i];
    } else {
      FilterNewIsKept(s.kernel, batch);
      AppendsForMembers(Kept(s.kernel, batch), c);
      BuiltEqualsItself(b.rule);
      witness_ := b.rule;
    }
    assert witness_ in now;
    var l :| 0 <= l < |now| && now[l] == witness_;
  }

  lemma {:induction false} NothingNew(k: Kernel, batch: seq<BuiltRule>)
    requires forall b :: b in batch ==> Installed(k, b)
    ensures FilterNew(k, batch) == []
    decreases |batch|
  {
    if batch != [] {
      assert batch[0] in batch;
      NothingNew(k, batch[1..]);
    }
  }

  /** AddRules is idempotent: repeating a successful call changes neither the kernel nor the queue. */
  lemma AddRulesIdempotent(s: State, batch: seq<BuiltRule>)
    requires AllBuilt(batch) && forall b :: b in batch ==> Placed(s.kernel, b)
    ensures AddSpec(AddSpec(s, batch), batch) == AddSpec(s, batch)
  {
    forall b | b in batch ensures Installed(AddSpec(s, batch).kernel, b) {
      AddedIsInstalled(s, batch, b);
    }
    NothingNew(AddSpec(s, batch).kernel, batch);
  }

  // ---- Duplicate-free chains ----

  ghost predicate DupFree(rules: seq<Rule>) {
    forall i, j :: 0 <= i < j < |rules| ==> !EqualExprs(rules[i], rules[j])
  }

  ghost predicate AllDupFree(cs: Chains) {
    forall c :: c in cs ==> DupFree(cs[c].rules)
  }

  lemma {:induction false} UnequalMembers(installed: seq<Rule>, rules: seq<Rule>)
    ensures forall r :: r in Unequal(installed, rules) ==> r in rules && !EqualsSome(r, installed)
    ensures DupFree(rules) ==> DupFree(Unequal(installed, rules))
    decreases |rules|
  {
    if rules != [] {
      var tail := Unequal(installed, rules[1..]);
      UnequalMembers(installed, rules[1..]);
      if DupFree(rules) {
        assert DupFree(rules[1..]);
        forall r | r in tail ensures !EqualExprs(rules[0], r) {
          var j :| 0 <= j < |rules[1..]| && rules[1..][j] == r;
          assert rules[j + 1] == r;
        }
        forall i, j | 0 <= i < j < |Unequal(installed, rules)|
          ensures !EqualExprs(Unequal(installed, rules)[i], Unequal(installed, rules)[j])
        {
          if !EqualsSome(rules[0], installed) && i == 0 {
            assert Unequal(installed, rules)[j] == tail[j - 1];
          }
        }
      }
    }
  }

  ghost predicate BatchDistinct(batch: seq<BuiltRule>) {
    forall i, j :: 0 <= i < j < |batch| && batch[i].chain == batch[j].chain ==> !EqualExprs(batch[i].rule, batch[j].rule)
  }

  lemma {:induction false} DistinctPerChain(batch: seq<BuiltRule>, c: string)
    requires BatchDistinct(batch)
    ensures DupFree(AppendsFor(batch, c))
    decreases |batch|
  {
    if batch != [] {
      assert BatchDistinct(batch[1..]);
      DistinctPerChain(batch[1..], c);
      AppendsForMembers(batch[1..], c);
      var tail := AppendsFor(batch[1..], c);
      if batch[0].chain == c {
        forall j | 0 <= j < |tail| ensures !EqualExprs(batch[0].rule, tail[j]) {
          assert tail[j] in tail;
          var b :| b in batch[1..] && b.chain == c && b.rule == tail[j];
          var l :| 0 <= l < |batch[1..]| && batch[1..][l] == b;
          assert batch[l + 1] == b;
        }
      }
    }
  }

  function RulesIn(k: Kernel, c: string): seq<Rule> {
    if c in k.chains then k.chains[c].rules else []
  }

  /** What AddRules adds to one chain. */
  ghost function Added(k: Kernel, batch: seq<BuiltRule>, c: string): seq<Rule> {
    Unequal(RulesIn(k, c), AppendsFor(batch, c))
  }

  ghost predicate NoneEqual(a: seq<Rule>, b: seq<Rule>) {
    forall i, j :: 0 <= i < |a| && 0 <= j < |b| ==> !EqualExprs(a[i], b[j])
  }

  lemma ConcatDupFree(a: seq<Rule>, b: seq<Rule>)
    ensures DupFree(a + b) <==> DupFree(a) && DupFree(b) && NoneEqual(a, b)
  {
    if DupFree(a + b) {
      forall i, j | 0 <= i < j < |a| ensures !EqualExprs(a[i], a[j]) {
        assert (a + b)[i] == a[i] && (a + b)[j] == a[j];
      }
      forall i, j | 0 <= i < j < |b| ensures !EqualExprs(b[i], b[j]) {
        assert (a + b)[|a| + i] == b[i] && (a + b)[|a| + j] == b[j];
      }
      forall i, j | 0 <= i < |a| && 0 <= j < |b| ensures !EqualExprs(a[i], b[j]) {
        assert (a + b)[i] == a[i] && (a + b)[|a| + j] == b[j];
      }
    }
  }

  /** AddRules extends each chain, as flushing the queue alone would leave it, by what it adds. */
  lemma AddRulesPerChain(s: State, batch: seq<BuiltRule>, c: string)
    requires forall b :: b in batch ==> Placed(s.kernel, b)
    ensures c in AddSpec(s, batch).kernel.chains <==> c in s.Flushed().kernel.chains
    ensures RulesIn(AddSpec(s, batch).kernel, c) == RulesIn(s.Flushed().kernel, c) + Added(s.kernel, batch, c)
  {
    BothResults(s, batch, c);
    if c in s.kernel.chains {
      KeptPerChain(s.kernel, batch, c);
    }
  }

  /**
   From any state, whatever is queued, every chain is duplicate-free after AddRules if and only if
   flushing the queue alone leaves it so, what the batch adds is so, and none of it equals a rule there.
   */
  lemma AddRulesDupFreeExactly(s: State, batch: seq<BuiltRule>)
    requires forall b :: b in batch ==> Placed(s.kernel, b)
    ensures AllDupFree(AddSpec(s, batch).kernel.chains)
       <==> && AllDupFree(s.Flushed().kernel.chains)
            && forall c :: c in s.Flushed().kernel.chains ==>
                 DupFree(Added(s.kernel, batch, c)) && NoneEqual(RulesIn(s.Flushed().kernel, c), Added(s.kernel, batch, c))
  {
    forall c
      ensures c in AddSpec(s, batch).kernel.chains <==> c in s.Flushed().kernel.chains
      ensures DupFree(RulesIn(AddSpec(s, batch).kernel, c))
         <==> && DupFree(RulesIn(s.Flushed().kernel, c))
              && DupFree(Added(s.kernel, batch, c)) && NoneEqual(RulesIn(s.Flushed().kernel, c), Added(s.kernel, batch, c))
    {
      AddRulesPerChain(s, batch, c);
      ConcatDupFree(RulesIn(s.Flushed().kernel, c), Added(s.kernel, batch, c));
    }
  }

  /** With an empty queue nothing that is added equals a rule that is there. */
  lemma AddedIsNew(k: Kernel, batch: seq<BuiltRule>, c: string)
    ensures NoneEqual(RulesIn(k, c), Added(k, batch, c))
  {
    UnequalMembers(RulesIn(k, c), AppendsFor(batch, c));
    forall i, j | 0 <= i < |RulesIn(k, c)| && 0 <= j < |Added(k, batch, c)|
      ensures !EqualExprs(RulesIn(k, c)[i], Added(k, batch, c)[j])
    {
      assert Added(k, batch, c)[j] in Added(k, batch, c);
      EqualExprsIsEquivalence(RulesIn(k, c)[i], Added(k, batch, c)[j], []);
    }
  }

  /** The state after a call that failed on the read for rule `i` of its batch. */
  ghost function ReadFailedAt(k: Kernel, batch: seq<BuiltRule>, i: nat): State
    requires i < |batch|
  {
    State(k, FilterNew(k, batch[..i]))
  }

  /** A rule that a failed call left queued is queued again by the next one. */
  lemma QueuedAgain(k: Kernel, batch: seq<BuiltRule>, i: nat, b: BuiltRule)
    requires forall x :: x in batch ==> Placed(k, x) && IsBuilt(x.rule)
    requires i < |batch| && b in batch[..i] && !Installed(k, b)
    ensures !AllDupFree(AddSpec(ReadFailedAt(k, batch, i), batch).kernel.chains)
  {
    var failed, c := ReadFailedAt(k, batch, i), b.chain;
    var early, late := Added(k, batch[..i], c), Added(k, batch, c);
    AddRulesPerChain(State(k, []), batch[..i], c);
    AddRulesPerChain(failed, batch, c);
    assert [] + failed.queue == failed.queue;
    assert failed.Flushed() == AddSpec(State(k, []), batch[..i]);
    AddedContains(k, batch[..i], b);
    AddedContains(k, batch, b);
    var before := RulesIn(failed.Flushed().kernel, c);
    assert b.rule in before && b.rule in late;
    var x :| 0 <= x < |before| && before[x] == b.rule;
    var y :| 0 <= y < |late| && late[y] == b.rule;
    BuiltEqualsItself(b.rule);
    assert !NoneEqual(before, late);
    ConcatDupFree(before, late);
    assert c in k.chains;
    KeysGrow(k, failed.queue);
    assert c in AddSpec(failed, batch).kernel.chains;
  }

  lemma AddedContains(k: Kernel, batch: seq<BuiltRule>, b: BuiltRule)
    requires b in batch && !Installed(k, b) && b.chain in k.chains
    ensures b.rule in Added(k, batch, b.chain)
  {
    FilterNewIsKept(k, batch);
    AppendsForMembers(Kept(k, batch), b.chain);
    KeptPerChain(k, batch, b.chain);
  }

  /**
   Retrying after a failed read, for every batch and every point of failure: the retry leaves the
   chains duplicate-free if and only if the failed call had queued nothing, that is, all rules
   before the failure were installed, and the call would have left them so without the failure.
   */
  lemma RetryDupFreeExactly(k: Kernel, batch: seq<BuiltRule>, i: nat)
    requires AllBuilt(batch) && (forall b :: b in batch ==> Placed(k, b)) && i < |batch|
    ensures AddFailed(State(k, []), batch, ReadFailedAt(k, batch, i))
    ensures FilterNew(k, batch[..i]) == [] <==> forall b :: b in batch[..i] ==> Installed(k, b)
    ensures AllDupFree(AddSpec(ReadFailedAt(k, batch, i), batch).kernel.chains)
       <==> FilterNew(k, batch[..i]) == [] && AllDupFree(AddSpec(State(k, []), batch).kernel.chains)
  {
    FilterNewIsKept(k, batch[..i]);
    assert ReadFailedAt(k, batch, i) == State(k, []).With(FilterNew(k, batch[..i]));
    if FilterNew(k, batch[..i]) != [] {
      var b := Kept(k, batch[..i])[0];
      assert b in Kept(k, batch[..i]);
      QueuedAgain(k, batch, i, b);
    }
  }

  /** The shortest such retry: the first rule of two is new, and reading for the second fails. */
  lemma RetryAfterFailedReadDuplicates(k: Kernel, b: BuiltRule, b2: BuiltRule)
    requires IsBuilt(b.rule) && IsBuilt(b2.rule) && Placed(k, b) && Placed(k, b2) && !Installed(k, b)
    ensures ReadFailedAt(k, [b, b2], 1) == State(k, [AppendOf(b)])
    ensures !AllDupFree(AddSpec(State(k, [AppendOf(b)]), [b, b2]).kernel.chains)
  {
    assert [b, b2][..1] == [b] && [b][1..] == [];
    assert FilterNew(k, [b]) == [AppendOf(b)];
    RetryDupFreeExactly(k, [b, b2], 1);
  }

  // ---- Duplicate-free runs ----

  /** Kernel and pending kernel are duplicate-free, and only built rules are pending. */
  ghost predicate CleanState(s: State) {
    && LeftoverQueue(s.queue)
    && AllDupFree(s.kernel.chains)
    && AllDupFree(s.Flushed().kernel.chains)
  }

  /** The condition on a call: AddRules starts from an empty queue with a placed, distinct batch. */
  ghost predicate CleanCall(s: State, op: Op) {
    op.Adding? ==> s.queue == [] && BatchDistinct(op.batch) && AllBuilt(op.batch) && forall b :: b in op.batch ==> Placed(s.kernel, b)
  }

  /** Without queued rules a state is clean when no chain has duplicates; and which calls count as clean. */
  lemma CleanMeans(k: Kernel, from: string, to: string, table: string, batch: seq<BuiltRule>)
    ensures CleanState(State(k, [])) <==> AllDupFree(k.chains)
    ensures CleanCall(State(k, []), Jumping(from, to, table))
    ensures (AllBuilt(batch) && (forall b :: b in batch ==> Placed(k, b))
             && forall i, j :: 0 <= i < j < |batch| ==> !EqualExprs(batch[i].rule, batch[j].rule)) ==> CleanCall(State(k, []), Adding(batch))
  {
  }

  lemma EnsureChainStaysClean(s: State, name: string, table: string)
    requires CleanState(s)
    ensures CleanState(EnsureChain(s, name, table, None)) && CleanState(EnsureChain(s, name, table, None).Emptied())
  {
    var cmd := CreateChain(table, name, None);
    ApplyConcat(s.kernel, s.queue, [cmd]);
    assert ApplyAll(s.Flushed().kernel, [cmd]) == Apply(s.Flushed().kernel, cmd);
  }

  lemma EqualToJumpJumps(r: Rule, to: string)
    ensures EqualExprs(JumpProgram(to), r) ==> Jumps(r, to)
  {
    if EqualExprs(JumpProgram(to), r) {
      assert ExprEqual(JumpProgram(to)[0], r[0]);
      assert CallsChain(r[0], to);
    }
  }

  lemma JumpStaysDupFree(cs: Chains, from: string, to: string)
    requires from in cs && AllDupFree(cs) && !HasJump(cs[from].rules, to)
    ensures AllDupFree(WithJump(cs, from, to))
  {
    var now, was := WithJump(cs, from, to)[from].rules, cs[from].rules;
    forall i, j | 0 <= i < j < |now| ensures !EqualExprs(now[i], now[j]) {
      assert now[j] == was[j - 1];
      if i == 0 {
        EqualToJumpJumps(was[j - 1], to);
        HasJumpMeansSome(was, to);
      } else {
        assert now[i] == was[i - 1];
      }
    }
  }

  lemma PrefixAddStaysClean(s: State, batch: seq<BuiltRule>, i: nat)
    requires CleanState(s) && CleanCall(s, Adding(batch)) && i <= |batch|
    ensures CleanState(s.With(FilterNew(s.kernel, batch[..i]))) && CleanState(AddSpec(s, batch[..i]))
  {
    var part := batch[..i];
    FilterNewIsLeftover(s.kernel, part);
    forall c | c in s.kernel.chains ensures DupFree(Added(s.kernel, part, c)) && NoneEqual(RulesIn(s.kernel, c), Added(s.kernel, part, c)) {
      DistinctPerChain(part, c);
      UnequalMembers(s.kernel.chains[c].rules, AppendsFor(part, c));
      AddedIsNew(s.kernel, part, c);
    }
    assert s.Flushed() == s;
    AddRulesDupFreeExactly(s, part);
  }

  lemma StepStaysClean(s: State, op: Op, s': State)
    requires CleanState(s) && CleanCall(s, op) && OpStep(s, op, s')
    ensures CleanState(s')
  {
    match op
    case Jumping(f, t, table) =>
      var s1, s2 := EnsureChain(s, f, table, None), BothChains(s, f, t, table);
      EnsureChainStaysClean(s, f, table);
      EnsureChainStaysClean(s1, t, table);
      JumpStages(s, f, t, table);
      if !HasJump(s2.kernel.chains[f].rules, t) {
        AppendedKeepsJumps(s2.kernel.chains, s2.Flushed().kernel.chains);
        JumpStaysDupFree(s2.Flushed().kernel.chains, f, t);
      }
    case Adding(batch) =>
      assert batch[..|batch|] == batch;
      forall i | 0 <= i <= |batch|
        ensures CleanState(s.With(FilterNew(s.kernel, batch[..i]))) && CleanState(AddSpec(s, batch[..i]))
      {
        PrefixAddStaysClean(s, batch, i);
      }
  }

  /**
   Over every run of clean calls, successful or failed, chains stay duplicate-free. By
   RetryAfterFailedReadDuplicates the condition on the queue cannot be dropped.
   */
  lemma {:induction false} RunStaysDupFree(states: seq<State>, ops: seq<Op>, j: nat)
    requires Run(states, ops) && CleanState(states[0]) && j < |states|
    requires forall i :: 0 <= i < |ops| ==> CleanCall(states[i], ops[i])
    ensures CleanState(states[j])
    decreases j
  {
    if j > 0 {
      RunStaysDupFree(states, ops, j - 1);
      assert OpStep(states[j - 1], ops[j - 1], states[j - 1 + 1]);
      StepStaysClean(states[j - 1], ops[j - 1], states[j]);
    }
  }
}
