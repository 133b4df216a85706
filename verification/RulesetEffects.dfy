/** What AddJumpRule and AddRules do to packets, whatever rules are already in the chains. */
module RulesetEffects {
  import opened Wrappers
  import opened Exprs
  import opened PacketFilter
  import opened RulePrograms
  import opened Ruleset

  /** The chains after a jump is put at the head of `from`. */
  function WithJump(cs: Chains, from: string, to: string): Chains
    requires from in cs
  {
    cs[from := cs[from].(rules := [JumpProgram(to)] + cs[from].rules)]
  }

  lemma JumpOutcome(m: Machine, to: string)
    ensures m.Outcome(JumpProgram(to)) == JumpTo(to)
  {
  }

  /** How the head jump decides: the called chain first, then the rules that were there before. */
  lemma RunWithHeadJump(m: Machine, cs: Chains, fuel: nat, to: string, rest: seq<Rule>)
    requires fuel > 0 && to in cs
    ensures RunRules(m, cs, fuel, [JumpProgram(to)] + rest)
         == match RunChain(m, cs, fuel - 1, to)
            case Decided(a) => Decided(a)
            case Stuck => Stuck
            case _ => RunRules(m, cs, fuel, rest)
  {
  }

  /**
   Precedence and transparency of an inserted jump. On every packet, for every content of the
   from-chain, the to-chain's decision wins if it makes one; otherwise the from-chain ends exactly
   as it did before the insertion.
   */
  lemma JumpTransparency(m: Machine, cs: Chains, rank: map<string, nat>, from: string, to: string, fuel: nat)
    requires from in cs && to in cs && WellFormed(m, WithJump(cs, from, to), rank)
    ensures RunChain(m, WithJump(cs, from, to), fuel + 1, from)
         == match RunChain(m, cs, fuel, to)
            case Decided(a) => Decided(a)
            case Stuck => Stuck
            case _ => RunChain(m, cs, fuel + 1, from)
  {
    var cs' := WithJump(cs, from, to);
    var old_ := cs[from].rules;
    var cone := set c | c in cs && rank[c] < rank[from];
    JumpOutcome(m, to);
    assert cs'[from].rules[0] == JumpProgram(to);
    assert to in cone by { assert Target(m, cs'[from].rules[0]) == Some(to); }
    forall i | 0 <= i < |old_| ensures Target(m, old_[i]) == None || Target(m, old_[i]).value in cone {
      assert cs'[from].rules[i + 1] == old_[i];
    }
    forall c | c in cone ensures CallsWithin(m, cs[c].rules, cone) {
      assert cs'[c].rules == cs[c].rules;
    }
    Frame(m, cs, cs', cone, fuel, cs[to].rules);
    Frame(m, cs, cs', cone, fuel + 1, old_);
    RunWithHeadJump(m, cs', fuel + 1, to, old_);
  }

  /** Taking the jump out again leaves a well-formed ruleset. */
  lemma WellFormedWithout(m: Machine, cs: Chains, rank: map<string, nat>, from: string, to: string)
    requires from in cs && WellFormed(m, WithJump(cs, from, to), rank)
    ensures WellFormed(m, cs, rank) && to in cs && rank[to] < rank[from]
  {
    var cs' := WithJump(cs, from, to);
    JumpOutcome(m, to);
    assert cs'[from].rules[0] == JumpProgram(to) && Target(m, cs'[from].rules[0]) == Some(to);
    forall c, i | c in cs && 0 <= i < |cs[c].rules| && Target(m, cs[c].rules[i]).Some?
      ensures var d := Target(m, cs[c].rules[i]).value; d in cs && cs[d].policy == None && rank[d] < rank[c]
    {
      assert cs[c].rules[i] == cs'[c].rules[if c == from then i + 1 else i];
    }
  }

  /** A jump at the head to a chain without rules is passed over. */
  lemma EmptyJumpPasses(m: Machine, cs: Chains, fuel: nat, to: string, rest: seq<Rule>)
    requires fuel > 0 && to in cs && cs[to].rules == []
    ensures RunRules(m, cs, fuel, [JumpProgram(to)] + rest) == RunRules(m, cs, fuel, rest)
  {
    RunWithHeadJump(m, cs, fuel, to, rest);
    assert RunChain(m, cs, fuel - 1, to) == EndOfRules;
  }

  /** Where a rule of a chain calls to is below the chain. */
  lemma CallGoesDown(m: Machine, cs: Chains, rank: map<string, nat>, c: string, r: Rule)
    requires WellFormed(m, cs, rank) && c in cs && r in cs[c].rules && Target(m, r).Some?
    ensures Target(m, r).value in cs && rank[Target(m, r).value] < rank[c]
  {
  }

  /** The first rule decides alike when the chains it calls do, and so do the rest. */
  lemma FirstThenRest(m: Machine, cs: Chains, cs': Chains, fuel: nat, rules: seq<Rule>)
    requires rules != [] && RunRules(m, cs, fuel, rules[1..]) == RunRules(m, cs', fuel, rules[1..])
    requires Target(m, rules[0]).Some? ==> Call(m, cs, fuel, Target(m, rules[0]).value) == Call(m, cs', fuel, Target(m, rules[0]).value)
    ensures RunRules(m, cs, fuel, rules) == RunRules(m, cs', fuel, rules)
  {
  }

  /** A jump to a chain without rules changes nothing, in any chain, with depth enough for the call graph. */
  lemma {:induction false} FreshJumpHarmless(m: Machine, cs: Chains, rank: map<string, nat>, from: string, to: string,
                                             fuel: nat, c: string, rules: seq<Rule>)
    requires from in cs && to in cs && cs[to].rules == [] && WellFormed(m, WithJump(cs, from, to), rank)
    requires c in cs && fuel >= rank[c] && forall r :: r in rules ==> r in cs[c].rules
    ensures RunRules(m, WithJump(cs, from, to), fuel, rules) == RunRules(m, cs, fuel, rules)
    ensures rules == cs[c].rules ==> RunChain(m, WithJump(cs, from, to), fuel, c) == RunChain(m, cs, fuel, c)
    decreases fuel, |rules|
  {
    hide RunRules, WellFormed, Target;
    var cs' := WithJump(cs, from, to);
    WellFormedWithout(m, cs, rank, from, to);
    assert from != to;
    if rules == [] {
      NoRules(m, cs, cs', fuel);
    } else {
      assert rules[0] in rules;
      FreshJumpHarmless(m, cs, rank, from, to, fuel, c, rules[1..]);
      if Target(m, rules[0]).Some? {
        var d := Target(m, rules[0]).value;
        CallGoesDown(m, cs, rank, c, rules[0]);
        FreshJumpHarmless(m, cs, rank, from, to, fuel - 1, d, cs[d].rules);
      }
      FirstThenRest(m, cs, cs', fuel, rules);
    }
    if rules == cs[c].rules && c == from {
      EmptyJumpPasses(m, cs', fuel, to, rules);
    }
  }

  lemma NoRules(m: Machine, cs: Chains, cs': Chains, fuel: nat)
    ensures RunRules(m, cs, fuel, []) == RunRules(m, cs', fuel, [])
  {
  }

  /** A successful AddJumpRule that finds no jump ends in the insertion, after whatever was queued. */
  lemma JumpSpecInserts(s: State, from: string, to: string, table: string)
    requires var cs := BothChains(s, from, to, table).kernel.chains; from in cs ==> !HasJump(cs[from].rules, to)
    ensures from in BothChains(s, from, to, table).Flushed().kernel.chains
    ensures to in BothChains(s, from, to, table).Flushed().kernel.chains
    ensures JumpSpec(s, from, to, table).queue == []
    ensures JumpSpec(s, from, to, table).kernel.chains
         == WithJump(BothChains(s, from, to, table).Flushed().kernel.chains, from, to)
  {
    var s1 := EnsureChain(s, from, table, None);
    var s2 := EnsureChain(s1, to, table, None);
    EnsureChainExists(s, from, table, None);
    EnsureChainExists(s1, to, table, None);
    ChainsGrow(s1, to, table, None);
    KeysGrow(s2.kernel, s2.queue);
    var cmd := InsertRule(table, from, JumpProgram(to));
    ApplyConcat(s2.kernel, s2.queue, [cmd]);
    assert ApplyAll(ApplyAll(s2.kernel, s2.queue), [cmd]) == Apply(ApplyAll(s2.kernel, s2.queue), cmd);
  }

  /** Some rule of the list has the expression that jumps to the chain. */
  ghost predicate ContainsJump(rules: seq<Rule>, to: string) {
    exists i, j :: 0 <= i < |rules| && 0 <= j < |rules[i]| && rules[i][j] == Verdict(Jump, to)
  }

  /**
   The from-chain after AddJumpRule: as it was if a jump to that very chain was in it, wherever; else
   the new jump followed by the rules that were there, after whatever was queued.
   */
  lemma AddJumpRuleMeans(s: State, from: string, to: string, table: string)
    ensures var found, now := BothChains(s, from, to, table), JumpSpec(s, from, to, table);
            && from in found.kernel.chains && from in now.kernel.chains && to in now.kernel.chains
            && from in found.Flushed().kernel.chains
            && (if ContainsJump(found.kernel.chains[from].rules, to) then now == found
                else now.queue == [] && now.kernel.chains[from].rules
                     == [[Verdict(Jump, to)]] + found.Flushed().kernel.chains[from].rules)
            && ContainsJump(now.kernel.chains[from].rules, to)
  {
    var found := BothChains(s, from, to, table);
    EnsureChainExists(s, from, table, None);
    EnsureChainExists(EnsureChain(s, from, table, None), to, table, None);
    ChainsGrow(EnsureChain(s, from, table, None), to, table, None);
    KeysGrow(found.kernel, found.queue);
    JumpsAreVerdicts(found.kernel.chains[from].rules, to);
    if !HasJump(found.kernel.chains[from].rules, to) {
      JumpSpecInserts(s, from, to, table);
      var now := JumpSpec(s, from, to, table).kernel.chains[from].rules;
      assert now[0][0] == Verdict(Jump, to);
    }
  }

  lemma JumpsAreVerdicts(rules: seq<Rule>, to: string)
    ensures HasJump(rules, to) <==> ContainsJump(rules, to)
  {
    if HasJump(rules, to) {
      var i, j :| 0 <= i < |rules| && 0 <= j < |rules[i]| && CallsChain(rules[i][j], to);
      assert rules[i][j] == Verdict(Jump, to);
    }
    if ContainsJump(rules, to) {
      var i, j :| 0 <= i < |rules| && 0 <= j < |rules[i]| && rules[i][j] == Verdict(Jump, to);
      assert CallsChain(rules[i][j], to);
    }
  }

  /** Precedence and transparency, stated for the operation itself, whatever was queued before. */
  lemma AddJumpRulePrecedence(m: Machine, s: State, from: string, to: string, table: string, rank: map<string, nat>, fuel: nat)
    requires var cs := BothChains(s, from, to, table).kernel.chains; from in cs ==> !HasJump(cs[from].rules, to)
    requires WellFormed(m, JumpSpec(s, from, to, table).kernel.chains, rank)
    ensures var before := BothChains(s, from, to, table).Flushed().kernel.chains;
            RunChain(m, JumpSpec(s, from, to, table).kernel.chains, fuel + 1, from)
            == match RunChain(m, before, fuel, to)
               case Decided(a) => Decided(a)
               case Stuck => Stuck
               case _ => RunChain(m, before, fuel + 1, from)
  {
    JumpSpecInserts(s, from, to, table);
    JumpTransparency(m, BothChains(s, from, to, table).Flushed().kernel.chains, rank, from, to, fuel);
  }

  /**
   The verdict of a base chain after AddJumpRule, with depth enough for the call graph: the
   to-chain's decision if it makes one, else the verdict from before the insertion.
   */
  lemma AddJumpRuleVerdict(m: Machine, s: State, from: string, to: string, table: string, rank: map<string, nat>, fuel: nat)
    requires var cs := BothChains(s, from, to, table).kernel.chains; from in cs ==> !HasJump(cs[from].rules, to)
    requires WellFormed(m, JumpSpec(s, from, to, table).kernel.chains, rank) && from in rank && fuel >= rank[from]
    ensures var before := BothChains(s, from, to, table).Flushed().kernel.chains;
            && fuel > 0
            && ChainVerdict(m, JumpSpec(s, from, to, table).kernel.chains, fuel, from)
               == match RunChain(m, before, fuel - 1, to)
                  case Decided(a) => Some(a)
                  case _ => ChainVerdict(m, before, fuel, from)
  {
    hide BothChains, JumpSpec, HasJump;
    var before := BothChains(s, from, to, table).Flushed().kernel.chains;
    JumpSpecInserts(s, from, to, table);
    JumpVerdict(m, before, rank, from, to, fuel);
  }

  lemma JumpVerdict(m: Machine, cs: Chains, rank: map<string, nat>, from: string, to: string, fuel: nat)
    requires from in cs && to in cs && WellFormed(m, WithJump(cs, from, to), rank) && fuel >= rank[from]
    ensures fuel > 0
    ensures ChainVerdict(m, WithJump(cs, from, to), fuel, from)
         == match RunChain(m, cs, fuel - 1, to)
            case Decided(a) => Some(a)
            case _ => ChainVerdict(m, cs, fuel, from)
  {
    WellFormedWithout(m, cs, rank, from, to);
    JumpTransparency(m, cs, rank, from, to, fuel - 1);
    DepthSuffices(m, cs, rank, fuel - 1, fuel - 1, to, cs[to].rules);
    assert RunChain(m, cs, fuel - 1, to) == RunRules(m, cs, fuel - 1, cs[to].rules) != Stuck;
  }

  /** AddJumpRule creates the to-chain, and the from-chain if need be, after flushing what was queued. */
  lemma BothCreated(s: State, from: string, to: string, table: string)
    requires to !in s.Flushed().kernel.chains
    ensures var flushed := s.Flushed().kernel.chains;
            var cs := if from in flushed then flushed else flushed[from := Chain(table, None, [])];
            && BothChains(s, from, to, table).kernel.chains == cs[to := Chain(table, None, [])]
            && BothChains(s, from, to, table).queue == []
  {
    KeysGrow(s.kernel, s.queue);
    EnsuredChain(s, from, table, None);
    EnsuredChain(EnsureChain(s, from, table, None), to, table, None);
  }

  /** Ensuring a chain that is missing flushes the queue and creates it, empty and with the policy, unless the queue did. */
  lemma EnsuredChain(s: State, name: string, table: string, policy: Option<Action>)
    ensures var flushed := s.Flushed().kernel.chains;
            name !in s.kernel.chains ==>
              && EnsureChain(s, name, table, policy).kernel.chains
                 == (if name in flushed then flushed else flushed[name := Chain(table, policy, [])])
              && EnsureChain(s, name, table, policy).queue == []
    ensures name in s.kernel.chains ==> EnsureChain(s, name, table, policy) == s
  {
    var cmd := CreateChain(table, name, policy);
    ApplyConcat(s.kernel, s.queue, [cmd]);
    assert ApplyAll(ApplyAll(s.kernel, s.queue), [cmd]) == Apply(ApplyAll(s.kernel, s.queue), cmd);
  }

  /**
   A jump to a chain that AddJumpRule has to create first changes no packet's fate in any chain,
   whether or not the from-chain has to be created too, and whatever was queued: the rulesets
   compared are the one after the call and the one that flushing the queue alone would give.
   */
  lemma AddJumpRuleToNewChain(m: Machine, s: State, from: string, to: string, table: string,
                              rank0: map<string, nat>, rank: map<string, nat>, fuel: nat, c: string)
    requires var flushed := s.Flushed().kernel.chains;
             && to !in flushed && (from in flushed ==> !HasJump(flushed[from].rules, to))
             && WellFormed(m, flushed, rank0) && c in flushed
    requires WellFormed(m, JumpSpec(s, from, to, table).kernel.chains, rank) && c in rank && fuel >= rank[c]
    ensures RunChain(m, JumpSpec(s, from, to, table).kernel.chains, fuel, c) == RunChain(m, s.Flushed().kernel.chains, fuel, c)
    ensures ChainVerdict(m, JumpSpec(s, from, to, table).kernel.chains, fuel, c)
         == ChainVerdict(m, s.Flushed().kernel.chains, fuel, c)
  {
    hide BothChains, JumpSpec;
    var flushed := s.Flushed().kernel.chains;
    var cs := (if from in flushed then flushed else flushed[from := Chain(table, None, [])])[to := Chain(table, None, [])];
    BothCreated(s, from, to, table);
    assert BothChains(s, from, to, table).Flushed() == BothChains(s, from, to, table);
    JumpSpecInserts(s, from, to, table);
    Frame(m, flushed, cs, flushed.Keys, fuel, flushed[c].rules);
    FreshJumpHarmless(m, cs, rank, from, to, fuel, c, cs[c].rules);
  }

  // ---- De-duplication ----

  ghost predicate IsBuilt(r: Rule) {
    exists spec :: r == Program(spec)
  }

  function AllOf(batch: seq<BuiltRule>): (q: seq<Command>)
    ensures |q| == |batch|
  {
    seq(|batch|, i requires 0 <= i < |batch| => AppendOf(batch[i]))
  }

  /** The part of a batch that AddRules keeps. */
  ghost function Kept(k: Kernel, batch: seq<BuiltRule>): seq<BuiltRule>
    decreases |batch|
  {
    if batch == [] then []
    else (if Installed(k, batch[0]) then [] else [batch[0]]) + Kept(k, batch[1..])
  }

  lemma {:induction false} FilterNewIsKept(k: Kernel, batch: seq<BuiltRule>)
    ensures FilterNew(k, batch) == AllOf(Kept(k, batch))
    ensures forall b :: b in Kept(k, batch) <==> b in batch && !Installed(k, b)
    decreases |batch|
  {
    if batch != [] {
      FilterNewIsKept(k, batch[1..]);
      assert batch == [batch[0]] + batch[1..];
    }
  }

  /** The rules of a batch that go to one chain. */
  function AppendsFor(batch: seq<BuiltRule>, c: string): seq<Rule>
    decreases |batch|
  {
    if batch == [] then []
    else (if batch[0].chain == c then [batch[0].rule] else []) + AppendsFor(batch[1..], c)
  }

  lemma {:induction false} AppendsForMembers(batch: seq<BuiltRule>, c: string)
    ensures forall b :: b in batch && b.chain == c ==> b.rule in AppendsFor(batch, c)
    ensures forall r :: r in AppendsFor(batch, c) ==> exists b :: b in batch && b.chain == c && b.rule == r
    decreases |batch|
  {
    if batch != [] {
      AppendsForMembers(batch[1..], c);
      assert batch == [batch[0]] + batch[1..];
      assert batch[0] in batch;
    }
  }

  /** Appending a batch extends each chain by its own rules, in batch order, and nothing else. */
  lemma {:induction false} AppendEffect(k: Kernel, batch: seq<BuiltRule>, c: string)
    ensures ApplyAll(k, AllOf(batch)).chains.Keys == k.chains.Keys
    ensures c in k.chains ==>
              ApplyAll(k, AllOf(batch)).chains[c] == k.chains[c].(rules := k.chains[c].rules + AppendsFor(batch, c))
    decreases |batch|
  {
    if batch != [] {
      var k' := Apply(k, AppendOf(batch[0]));
      assert AllOf(batch)[1..] == AllOf(batch[1..]);
      AppendEffect(k', batch[1..], c);
      if c in k.chains {
        assert k'.chains[c].rules + AppendsFor(batch[1..], c) == k.chains[c].rules + AppendsFor(batch, c);
      }
    }
  }

  /** Rules never leave a chain. */
  lemma {:induction false} RulesPersist(k: Kernel, queue: seq<Command>, c: string)
    requires c in k.chains
    ensures c in ApplyAll(k, queue).chains
    ensures forall r :: r in k.chains[c].rules ==> r in ApplyAll(k, queue).chains[c].rules
    decreases |queue|
  {
    if queue != [] {
      RulesPersist(Apply(k, queue[0]), queue[1..], c);
    }
  }

  /** When a list is exhausted, none of its rules decided the packet or left the chain. */
  lemma {:induction false} ExhaustedMeansNoDecision(m: Machine, cs: Chains, fuel: nat, rules: seq<Rule>, r: Rule)
    requires RunRules(m, cs, fuel, rules) == EndOfRules && r in rules
    ensures m.Outcome(r).NextRule? || m.Outcome(r).JumpTo?
    decreases |rules|
  {
    if r != rules[0] {
      ExhaustedMeansNoDecision(m, cs, fuel, rules[1..], r);
    }
  }

  /** A terminal rule behind one with the same effect can be dropped. */
  lemma SkipRedundant(m: Machine, cs: Chains, fuel: nat, prefix: seq<Rule>, r: Rule, r': Rule, rest: seq<Rule>)
    requires Terminal(r) && r' in prefix && SameEffect(r, r')
    ensures RunRules(m, cs, fuel, prefix + [r] + rest) == RunRules(m, cs, fuel, prefix + rest)
  {
    RunConcat(m, cs, fuel, prefix, rest);
    RunConcat(m, cs, fuel, prefix, [r] + rest);
    assert prefix + [r] + rest == prefix + ([r] + rest);
    if RunRules(m, cs, fuel, prefix) == EndOfRules {
      ExhaustedMeansNoDecision(m, cs, fuel, prefix, r');
      assert m.Outcome(r) == m.Outcome(r');
      assert m.Outcome(r).NextRule?;
      assert ([r] + rest)[1..] == rest;
    }
  }

  ghost predicate AllLoadable(k: Kernel) {
    forall c, i :: c in k.chains && 0 <= i < |k.chains[c].rules| ==> Loadable(k.chains[c].rules[i])
  }

  ghost predicate EqualsSome(r: Rule, installed: seq<Rule>) {
    exists i :: 0 <= i < |installed| && EqualExprs(r, installed[i])
  }

  /** The rules of a list that no installed rule equals, in order. */
  ghost function Unequal(installed: seq<Rule>, rules: seq<Rule>): seq<Rule>
    decreases |rules|
  {
    if rules == [] then []
    else (if EqualsSome(rules[0], installed) then [] else [rules[0]]) + Unequal(installed, rules[1..])
  }

  /** Chain by chain, what AddRules keeps of a batch is what no rule of that chain equals. */
  lemma {:induction false} KeptPerChain(k: Kernel, batch: seq<BuiltRule>, c: string)
    requires c in k.chains
    ensures AppendsFor(Kept(k, batch), c) == Unequal(k.chains[c].rules, AppendsFor(batch, c))
    decreases |batch|
  {
    if batch != [] {
      KeptPerChain(k, batch[1..], c);
      var b, tail := batch[0], AppendsFor(batch[1..], c);
      if Installed(k, b) {
        assert Kept(k, batch) == Kept(k, batch[1..]);
      } else {
        assert Kept(k, batch)[0] == b && Kept(k, batch)[1..] == Kept(k, batch[1..]);
      }
      if b.chain == c {
        assert AppendsFor(batch, c)[0] == b.rule && AppendsFor(batch, c)[1..] == tail;
        assert Installed(k, b) <==> EqualsSome(b.rule, k.chains[c].rules);
      } else {
        assert AppendsFor(batch, c) == tail;
      }
    }
  }

  lemma SkipInstalled(m: Machine, cs: Chains, fuel: nat, installed: seq<Rule>, prefix: seq<Rule>, r: Rule, rest: seq<Rule>)
    requires IsBuilt(r) && EqualsSome(r, installed)
    requires forall x :: x in installed ==> Loadable(x) && x in prefix
    ensures RunRules(m, cs, fuel, prefix + [r] + rest) == RunRules(m, cs, fuel, prefix + rest)
  {
    var i :| 0 <= i < |installed| && EqualExprs(r, installed[i]);
    var spec :| r == Program(spec);
    EqualMeansSameEffect(spec, installed[i]);
    ProgramsAreTerminal(spec);
    SkipRedundant(m, cs, fuel, prefix, r, installed[i], rest);
  }

  /** Within one chain, dropping the rules that are installed already changes no packet's fate. */
  lemma {:induction false} DroppingInstalled(m: Machine, cs: Chains, fuel: nat, installed: seq<Rule>,
                                             prefix: seq<Rule>, rules: seq<Rule>)
    requires forall x :: x in installed ==> Loadable(x) && x in prefix
    requires forall r :: r in rules ==> IsBuilt(r)
    ensures RunRules(m, cs, fuel, prefix + rules) == RunRules(m, cs, fuel, prefix + Unequal(installed, rules))
    decreases |rules|
  {
    hide RunRules, IsBuilt, Loadable, EqualsSome, Unequal;
    UnequalStep(installed, rules);
    if rules != [] {
      var r, tail := rules[0], rules[1..];
      assert r in rules && forall x :: x in tail ==> x in rules;
      assert prefix + rules == prefix + [r] + tail;
      if EqualsSome(r, installed) {
        SkipInstalled(m, cs, fuel, installed, prefix, r, tail);
        DroppingInstalled(m, cs, fuel, installed, prefix, tail);
      } else {
        forall x | x in installed ensures x in prefix + [r] {}
        DroppingInstalled(m, cs, fuel, installed, prefix + [r], tail);
        assert prefix + ([r] + Unequal(installed, tail)) == prefix + [r] + Unequal(installed, tail);
      }
    }
  }

  lemma UnequalStep(installed: seq<Rule>, rules: seq<Rule>)
    ensures Unequal(installed, rules) ==
            if rules == [] then []
            else if EqualsSome(rules[0], installed) then Unequal(installed, rules[1..])
            else [rules[0]] + Unequal(installed, rules[1..])
  {
  }

  /** Rulesets whose chains end alike one level down run the same list alike. */
  lemma {:induction false} SameCalls(m: Machine, cs1: Chains, cs2: Chains, fuel: nat, rules: seq<Rule>)
    requires forall c :: Call(m, cs1, fuel, c) == Call(m, cs2, fuel, c)
    ensures RunRules(m, cs1, fuel, rules) == RunRules(m, cs2, fuel, rules)
    decreases |rules|
  {
    if rules != [] {
      SameCalls(m, cs1, cs2, fuel, rules[1..]);
      if Target(m, rules[0]).Some? {
        assert Call(m, cs1, fuel, Target(m, rules[0]).value) == Call(m, cs2, fuel, Target(m, rules[0]).value);
      }
    }
  }

  /** One chain of the thinned ruleset ends like its full counterpart, if the chains they call do. */
  lemma ThinnedRunsAlike(m: Machine, cs1: Chains, cs2: Chains, fuel: nat, installed: seq<Rule>, base: seq<Rule>, rules: seq<Rule>)
    requires forall d :: Call(m, cs1, fuel, d) == Call(m, cs2, fuel, d)
    requires forall x :: x in installed ==> Loadable(x) && x in base
    requires forall r :: r in rules ==> IsBuilt(r)
    ensures RunRules(m, cs1, fuel, base + Unequal(installed, rules)) == RunRules(m, cs2, fuel, base + rules)
  {
    DroppingInstalled(m, cs1, fuel, installed, base, rules);
    SameCalls(m, cs1, cs2, fuel, base + rules);
  }

  /**
   De-duplication refines plain append. For any kernel state and any leftover queue, after a
   successful AddRules every chain ends on every packet as if the whole batch had been appended
   unconditionally: the edited chains, and the chains that call them.
   */
  lemma {:induction false} DedupRefinesAppend(m: Machine, s: State, batch: seq<BuiltRule>, fuel: nat, c: string)
    requires AllLoadable(s.kernel) && forall b :: b in batch ==> IsBuilt(b.rule) && Placed(s.kernel, b)
    ensures RunChain(m, AddSpec(s, batch).kernel.chains, fuel, c)
         == RunChain(m, s.With(AllOf(batch)).Flushed().kernel.chains, fuel, c)
    decreases fuel
  {
    var cs1, cs2 := AddSpec(s, batch).kernel.chains, s.With(AllOf(batch)).Flushed().kernel.chains;
    BothResults(s, batch, c);
    forall d ensures Call(m, cs1, fuel, d) == Call(m, cs2, fuel, d) {
      if fuel > 0 {
        DedupRefinesAppend(m, s, batch, fuel - 1, d);
      }
    }
    if c in cs1 {
      var base := ApplyAll(s.kernel, s.queue).chains[c].rules;
      if c in s.kernel.chains {
        RulesPersist(s.kernel, s.queue, c);
        KeptPerChain(s.kernel, batch, c);
        AppendsForMembers(batch, c);
        ThinnedRunsAlike(m, cs1, cs2, fuel, s.kernel.chains[c].rules, base, AppendsFor(batch, c));
      } else {
        SameCalls(m, cs1, cs2, fuel, base + []);
      }
    }
  }

  /** The same for the fate of packets that enter a base chain. */
  lemma DedupKeepsVerdicts(m: Machine, s: State, batch: seq<BuiltRule>, fuel: nat, c: string)
    requires AllLoadable(s.kernel) && forall b :: b in batch ==> IsBuilt(b.rule) && Placed(s.kernel, b)
    ensures ChainVerdict(m, AddSpec(s, batch).kernel.chains, fuel, c)
         == ChainVerdict(m, s.With(AllOf(batch)).Flushed().kernel.chains, fuel, c)
  {
    BothResults(s, batch, c);
    DedupRefinesAppend(m, s, batch, fuel, c);
  }

  /** What one chain holds after AddRules, and after appending the whole batch. */
  lemma BothResults(s: State, batch: seq<BuiltRule>, c: string)
    requires forall b :: b in batch ==> Placed(s.kernel, b)
    ensures var base, cs1, cs2 :=
              ApplyAll(s.kernel, s.queue).chains, AddSpec(s, batch).kernel.chains, s.With(AllOf(batch)).Flushed().kernel.chains;
            && cs1.Keys == cs2.Keys == base.Keys && s.kernel.chains.Keys <= base.Keys
            && (c in base ==>
                  && cs1[c] == base[c].(rules := base[c].rules + AppendsFor(Kept(s.kernel, batch), c))
                  && cs2[c] == base[c].(rules := base[c].rules + AppendsFor(batch, c)))
            && (c !in s.kernel.chains ==> AppendsFor(batch, c) == [] && AppendsFor(Kept(s.kernel, batch), c) == [])
  {
    var base := ApplyAll(s.kernel, s.queue);
    FilterNewIsKept(s.kernel, batch);
    ApplyConcat(s.kernel, s.queue, AllOf(batch));
    ApplyConcat(s.kernel, s.queue, AllOf(Kept(s.kernel, batch)));
    AppendEffect(base, batch, c);
    AppendEffect(base, Kept(s.kernel, batch), c);
    KeysGrow(s.kernel, s.queue);
    if c !in s.kernel.chains {
      AppendsForMembers(batch, c);
      AppendsForMembers(Kept(s.kernel, batch), c);
      NonemptyHasMember(AppendsFor(batch, c));
      NonemptyHasMember(AppendsFor(Kept(s.kernel, batch), c));
    }
  }

  lemma NonemptyHasMember(rules: seq<Rule>)
    ensures rules == [] || exists r :: r in rules
  {
    if rules != [] {
      assert rules[0] in rules;
    }
  }
}
