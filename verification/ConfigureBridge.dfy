/** The configure-bridge command and its effect on every packet, end to end. */
module ConfigureBridge {
  import opened Wrappers
  import opened Exprs
  import opened PacketFilter
  import opened RulePrograms
  import opened Ruleset
  import opened RulesetEffects
  import opened RulesetRuns
  import opened RulesetUniqueness

  const FILTER := "filter"
  const NAT := "nat"
  const FORWARD := "FORWARD"
  const INPUT := "INPUT"
  const POSTROUTING := "POSTROUTING"

  function ForwardRequests(prefix: string, name: Bytes, hostIf: Bytes): seq<Request> {
    [Request(ForwardOutbound(hostIf, name), prefix + FORWARD, FILTER),
     Request(ForwardReturn(hostIf, name), prefix + FORWARD, FILTER)]
  }

  function PortRequests(prefix: string): seq<Request> {
    [Request(Port(53, "udp"), prefix + INPUT, FILTER),
     Request(Port(67, "udp"), prefix + INPUT, FILTER),
     Request(Port(68, "udp"), prefix + INPUT, FILTER),
     Request(Port(53, "tcp"), prefix + INPUT, FILTER),
     Request(Port(67, "tcp"), prefix + INPUT, FILTER),
     Request(Port(68, "tcp"), prefix + INPUT, FILTER)]
  }

  function MasqueradeRequests(hostIf: Bytes): seq<Request> {
    [Request(Masquerade(hostIf), POSTROUTING, NAT)]
  }

  function Requests(prefix: string, name: Bytes, hostIf: Bytes): seq<Request> {
    ForwardRequests(prefix, name, hostIf) + MasqueradeRequests(hostIf) + PortRequests(prefix)
  }

  /** The tables and chains the command works on: three base chains and the two that it adds. */
  datatype Names = Names(filter: string, nat_: string, forward: string, input: string, postrouting: string,
                         toForward: string, toInput: string) {
    predicate Distinct() {
      && filter != "" && nat_ != "" && forward != "" && input != "" && postrouting != "" && toForward != "" && toInput != ""
      && forward != input && forward != postrouting && input != postrouting
      && toForward != toInput && toForward != postrouting && toInput != postrouting
    }
  }

  function BridgeNames(prefix: string): Names {
    Names(FILTER, NAT, FORWARD, INPUT, POSTROUTING, prefix + FORWARD, prefix + INPUT)
  }

  lemma BridgeNamesDistinct(prefix: string)
    ensures BridgeNames(prefix).Distinct()
  {
    var a, b := prefix + FORWARD, prefix + INPUT;
    assert a[|a| - 1] == 'D' && b[|b| - 1] == 'T' && POSTROUTING[|POSTROUTING| - 1] == 'G';
    assert |FORWARD| != |INPUT| && |FORWARD| != |POSTROUTING| && |INPUT| != |POSTROUTING|;
  }

  ghost function AfterJumps(s: State, n: Names): State {
    JumpSpec(JumpSpec(s, n.forward, n.toForward, n.filter), n.input, n.toInput, n.filter)
  }

  /** The effect of a successful run of the command. */
  ghost function ConfigureSpec(s: State, prefix: string, name: Bytes, hostIf: Bytes): State {
    AddSpec(AfterJumps(s, BridgeNames(prefix)), BuiltFrom(Requests(prefix, name, hostIf)))
  }

  /** Where a run that returns early can stop. */
  ghost predicate ConfigureFailed(s: State, prefix: string, name: Bytes, hostIf: Bytes, s': State) {
    || JumpFailed(s, FORWARD, prefix + FORWARD, FILTER, s')
    || JumpFailed(JumpSpec(s, FORWARD, prefix + FORWARD, FILTER), INPUT, prefix + INPUT, FILTER, s')
    || s' == AfterJumps(s, BridgeNames(prefix))
    || AddFailed(AfterJumps(s, BridgeNames(prefix)), BuiltFrom(Requests(prefix, name, hostIf)), s')
  }

  /** From untouched chains the kernel takes every step of the command. */
  lemma NothingInTheWay(k: Kernel, prefix: string, name: Bytes, hostIf: Bytes)
    requires Untouched(k, BridgeNames(prefix))
    ensures var s1 := JumpSpec(State(k, []), FORWARD, prefix + FORWARD, FILTER);
            var s2 := AfterJumps(State(k, []), BridgeNames(prefix));
            && JumpServiceable(k, FORWARD, prefix + FORWARD, FILTER)
            && s1.queue == [] && JumpServiceable(s1.kernel, INPUT, prefix + INPUT, FILTER)
            && (forall q :: q in Requests(prefix, name, hostIf) ==> Locatable(s2.kernel, q.table, q.chain))
            && (forall b :: b in BuiltFrom(Requests(prefix, name, hostIf)) ==> Placed(s2.kernel, b))
            && AllApplicable(s2.kernel, s2.queue + FilterNew(s2.kernel, BuiltFrom(Requests(prefix, name, hostIf))))
  {
    var n, requests := BridgeNames(prefix), Requests(prefix, name, hostIf);
    JumpsInPlace(k, n);
    RequestsSplit(prefix, name, hostIf);
    BatchFits(k, n, BuiltFrom(requests), ForwardRules(name, hostIf), MasqueradeProgram(hostIf), PortRules());
    PlacedIsLocatable(AfterJumps(State(k, []), n).kernel, requests);
  }

  method Configure(conn: Conn, name: Bytes, hostIf: Bytes, prefix: string) returns (s: Status)
    modifies conn
    ensures conn.faults >= old(conn.faults)
    ensures s.Done? ==> conn.View() == ConfigureSpec(old(conn.View()), prefix, name, hostIf)
    ensures s.Failed? ==> ConfigureFailed(old(conn.View()), prefix, name, hostIf, conn.View())
    ensures conn.faults == old(conn.faults) && old(conn.queue) == [] && Untouched(old(conn.kernel), BridgeNames(prefix)) ==> s.Done?
  {
    hide Untouched, JumpSpec, AddSpec, JumpFailed, AddFailed, Requests, BuiltFrom;
    ghost var s0 := conn.View();
    if s0.queue == [] && Untouched(s0.kernel, BridgeNames(prefix)) {
      NothingInTheWay(s0.kernel, prefix, name, hostIf);
    }
    s := AddJumpRule(conn, FORWARD, prefix + FORWARD, FILTER);
    if s.Failed? {
      return;
    }
    s := AddJumpRule(conn, INPUT, prefix + INPUT, FILTER);
    if s.Failed? {
      return;
    }
    var rules := NewRules(conn, Requests(prefix, name, hostIf));
    if rules.Err? {
      return Failed;
    }
    s := AddRules(conn, rules.value);
  }

  // ---- The starting point and the shapes the command produces ----

  /** The standard base chains exist, the prefixed chains do not, and nothing jumps to them. */
  ghost predicate Untouched(k: Kernel, n: Names) {
    && n.Distinct()
    && n.filter in k.tables && n.nat_ in k.tables
    && n.forward in k.chains && k.chains[n.forward].table == n.filter && k.chains[n.forward].policy.Some?
    && n.input in k.chains && k.chains[n.input].table == n.filter && k.chains[n.input].policy.Some?
    && n.postrouting in k.chains && k.chains[n.postrouting].table == n.nat_ && k.chains[n.postrouting].policy.Some?
    && n.toForward !in k.chains && n.toInput !in k.chains
    && !HasJump(k.chains[n.forward].rules, n.toForward) && !HasJump(k.chains[n.input].rules, n.toInput)
  }

  /** The chains after one jump to a new, empty chain. */
  function Hooked(cs: Chains, table: string, base: string, added: string): Chains
    requires base in cs
  {
    WithJump(cs[added := Chain(table, None, [])], base, added)
  }

  lemma JumpToNewChain(k: Kernel, table: string, base: string, added: string)
    requires base in k.chains && added !in k.chains && !HasJump(k.chains[base].rules, added)
    ensures JumpSpec(State(k, []), base, added, table) == State(k.(chains := Hooked(k.chains, table, base, added)), [])
    ensures EnsureChain(State(k, []), base, table, None) == State(k, [])
    ensures BothChains(State(k, []), base, added, table).queue == []
    ensures BothChains(State(k, []), base, added, table).kernel == k.(chains := k.chains[added := Chain(table, None, [])])
  {
    var s := State(k, []);
    var s2 := BothChains(s, base, added, table);
    ChainsGrow(s, added, table, None);
    EnsureChainExists(s, added, table, None);
    assert s2 == s2.Flushed();
    JumpSpecInserts(s, base, added, table);
    var cmd := InsertRule(table, base, JumpProgram(added));
    assert s2.queue + [cmd] == [cmd];
    assert ApplyAll(s2.kernel, [cmd]) == Apply(s2.kernel, cmd);
  }

  /** Both jumps in closed form. */
  lemma JumpsInPlace(k: Kernel, n: Names)
    requires Untouched(k, n)
    ensures var hooked := Hooked(k.chains, n.filter, n.forward, n.toForward);
            && JumpSpec(State(k, []), n.forward, n.toForward, n.filter) == State(k.(chains := hooked), [])
            && AfterJumps(State(k, []), n) == State(k.(chains := Hooked(hooked, n.filter, n.input, n.toInput)), [])
            && JumpServiceable(k, n.forward, n.toForward, n.filter)
            && JumpServiceable(k.(chains := hooked), n.input, n.toInput, n.filter)
  {
    JumpToNewChain(k, n.filter, n.forward, n.toForward);
    var hooked := Hooked(k.chains, n.filter, n.forward, n.toForward);
    assert hooked[n.input] == k.chains[n.input];
    JumpToNewChain(k.(chains := hooked), n.filter, n.input, n.toInput);
  }

  lemma {:induction false} AppendsForConcat(a: seq<BuiltRule>, b: seq<BuiltRule>, c: string)
    ensures AppendsFor(a + b, c) == AppendsFor(a, c) + AppendsFor(b, c)
    decreases |a|
  {
    if a == [] {
      assert a + b == b;
    } else {
      assert (a + b)[1..] == a[1..] + b;
      AppendsForConcat(a[1..], b, c);
    }
  }

  function RulesOf(batch: seq<BuiltRule>): (rules: seq<Rule>)
    ensures |rules| == |batch|
  {
    seq(|batch|, i requires 0 <= i < |batch| => batch[i].rule)
  }

  lemma RulesOfStep(batch: seq<BuiltRule>)
    ensures RulesOf(batch) == if batch == [] then [] else [batch[0].rule] + RulesOf(batch[1..])
  {
  }

  lemma {:induction false} AppendsForOneChain(batch: seq<BuiltRule>, chain: string, c: string)
    requires forall b :: b in batch ==> b.chain == chain
    ensures AppendsFor(batch, c) == if c == chain then RulesOf(batch) else []
    decreases |batch|
  {
    hide RulesOf;
    RulesOfStep(batch);
    if batch != [] {
      assert batch[0] in batch && forall b :: b in batch[1..] ==> b in batch;
      AppendsForOneChain(batch[1..], chain, c);
    }
  }

  lemma {:induction false} RequestsForOneChain(requests: seq<Request>, chain: string, c: string)
    requires forall q :: q in requests ==> q.chain == chain
    ensures AppendsFor(BuiltFrom(requests), c) == if c == chain then RulesOf(BuiltFrom(requests)) else []
  {
    var batch := BuiltFrom(requests);
    forall b | b in batch ensures b.chain == chain {
      var i :| 0 <= i < |batch| && batch[i] == b;
      assert requests[i] in requests;
    }
    AppendsForOneChain(batch, chain, c);
  }

  lemma ThreeParts(a: seq<Request>, b: seq<Request>, d: seq<Request>, inA: string, inB: string, inD: string, c: string)
    requires forall q :: q in a ==> q.chain == inA
    requires forall q :: q in b ==> q.chain == inB
    requires forall q :: q in d ==> q.chain == inD
    ensures AppendsFor(BuiltFrom(a + b + d), c)
         == (if c == inA then RulesOf(BuiltFrom(a)) else []) + (if c == inB then RulesOf(BuiltFrom(b)) else [])
            + (if c == inD then RulesOf(BuiltFrom(d)) else [])
  {
    assert BuiltFrom(a + b + d) == BuiltFrom(a) + BuiltFrom(b) + BuiltFrom(d);
    AppendsForConcat(BuiltFrom(a) + BuiltFrom(b), BuiltFrom(d), c);
    AppendsForConcat(BuiltFrom(a), BuiltFrom(b), c);
    RequestsForOneChain(a, inA, c);
    RequestsForOneChain(b, inB, c);
    RequestsForOneChain(d, inD, c);
  }

  /** A batch of built rules that go to the two new chains and, one of them, to POSTROUTING. */
  ghost predicate Splits(batch: seq<BuiltRule>, n: Names, rf: seq<Rule>, masquerade: Rule, ri: seq<Rule>) {
    && (forall b :: b in batch ==>
          && IsBuilt(b.rule)
          && ((b.table == n.filter && b.chain in {n.toForward, n.toInput}) || (b.table == n.nat_ && b.chain == n.postrouting)))
    && SplitByChain(batch, n, rf, masquerade, ri)
  }

  ghost predicate SplitByChain(batch: seq<BuiltRule>, n: Names, rf: seq<Rule>, masquerade: Rule, ri: seq<Rule>) {
    && AppendsFor(batch, n.toForward) == rf && AppendsFor(batch, n.postrouting) == [masquerade] && AppendsFor(batch, n.toInput) == ri
    && forall c :: c !in {n.toForward, n.postrouting, n.toInput} ==> AppendsFor(batch, c) == []
  }

  function ForwardRules(name: Bytes, hostIf: Bytes): seq<Rule> {
    [OutboundProgram(hostIf, name), ReturnProgram(hostIf, name)]
  }

  function PortRules(): seq<Rule> {
    [PortProgram(53, "udp"), PortProgram(67, "udp"), PortProgram(68, "udp"),
     PortProgram(53, "tcp"), PortProgram(67, "tcp"), PortProgram(68, "tcp")]
  }

  lemma RequestsSplit(prefix: string, name: Bytes, hostIf: Bytes)
    ensures Splits(BuiltFrom(Requests(prefix, name, hostIf)), BridgeNames(prefix), ForwardRules(name, hostIf), MasqueradeProgram(hostIf), PortRules())
  {
    RequestPlaces(prefix, name, hostIf);
    RequestChains(prefix, name, hostIf);
  }

  lemma RequestPlaces(prefix: string, name: Bytes, hostIf: Bytes)
    ensures var n := BridgeNames(prefix);
            forall b :: b in BuiltFrom(Requests(prefix, name, hostIf)) ==>
              && IsBuilt(b.rule)
              && ((b.table == n.filter && b.chain in {n.toForward, n.toInput}) || (b.table == n.nat_ && b.chain == n.postrouting))
  {
  }

  lemma RequestChains(prefix: string, name: Bytes, hostIf: Bytes)
    ensures SplitByChain(BuiltFrom(Requests(prefix, name, hostIf)), BridgeNames(prefix),
                         ForwardRules(name, hostIf), MasqueradeProgram(hostIf), PortRules())
  {
    var qf, qm, qp := ForwardRequests(prefix, name, hostIf), MasqueradeRequests(hostIf), PortRequests(prefix);
    BridgeNamesDistinct(prefix);
    assert RulesOf(BuiltFrom(qf)) == ForwardRules(name, hostIf);
    assert RulesOf(BuiltFrom(qm)) == [MasqueradeProgram(hostIf)];
    assert RulesOf(BuiltFrom(qp)) == PortRules();
    PartsSplit(qf, qm, qp, BridgeNames(prefix), ForwardRules(name, hostIf), MasqueradeProgram(hostIf), PortRules());
  }

  lemma PartsSplit(qf: seq<Request>, qm: seq<Request>, qp: seq<Request>, n: Names, rf: seq<Rule>, masquerade: Rule, ri: seq<Rule>)
    requires n.Distinct()
    requires forall q :: q in qf ==> q.chain == n.toForward
    requires forall q :: q in qm ==> q.chain == n.postrouting
    requires forall q :: q in qp ==> q.chain == n.toInput
    requires RulesOf(BuiltFrom(qf)) == rf && RulesOf(BuiltFrom(qm)) == [masquerade] && RulesOf(BuiltFrom(qp)) == ri
    ensures SplitByChain(BuiltFrom(qf + qm + qp), n, rf, masquerade, ri)
  {
    var batch := BuiltFrom(qf + qm + qp);
    forall c ensures AppendsFor(batch, c)
                  == (if c == n.toForward then rf else []) + (if c == n.postrouting then [masquerade] else [])
                     + (if c == n.toInput then ri else [])
    {
      ThreeParts(qf, qm, qp, n.toForward, n.postrouting, n.toInput, c);
    }
    JoinParts(batch, n, rf, masquerade, ri);
  }

  lemma JoinParts(batch: seq<BuiltRule>, n: Names, rf: seq<Rule>, masquerade: Rule, ri: seq<Rule>)
    requires n.Distinct()
    requires forall c :: AppendsFor(batch, c)
                      == (if c == n.toForward then rf else []) + (if c == n.postrouting then [masquerade] else [])
                         + (if c == n.toInput then ri else [])
    ensures SplitByChain(batch, n, rf, masquerade, ri)
  {
  }

  /**
   What the command can make of the chains `before`: jumps in front of the base chains to chains
   with the given rules, and rules behind POSTROUTING. Everything else is as it was.
   */
  ghost predicate Extended(before: Chains, now: Chains, n: Names, jf: bool, rf: seq<Rule>, ji: bool, ri: seq<Rule>, post: seq<Rule>) {
    && n.Distinct() && before.Keys <= now.Keys
    && n.forward in before && n.input in before && n.postrouting in before
    && (forall c :: c in before && c !in {n.forward, n.input, n.postrouting} ==> now[c] == before[c])
    && now[n.forward] == before[n.forward].(rules := (if jf then [JumpProgram(n.toForward)] else []) + before[n.forward].rules)
    && now[n.input] == before[n.input].(rules := (if ji then [JumpProgram(n.toInput)] else []) + before[n.input].rules)
    && now[n.postrouting] == before[n.postrouting].(rules := before[n.postrouting].rules + post)
    && (jf ==> n.toForward in now && now[n.toForward].rules == rf)
    && (ji ==> n.toInput in now && now[n.toInput].rules == ri)
  }

  lemma {:induction false} UnequalToNone(rules: seq<Rule>)
    ensures Unequal([], rules) == rules
    decreases |rules|
  {
    if rules != [] {
      UnequalToNone(rules[1..]);
    }
  }

  ghost function NewTail(k: Kernel, n: Names, masquerade: Rule): seq<Rule>
    requires n.postrouting in k.chains
  {
    Unequal(k.chains[n.postrouting].rules, [masquerade])
  }

  /** What hooking both base chains leaves of each chain. */
  lemma HookedContents(before: Chains, n: Names)
    requires n.Distinct() && n.forward in before && n.input in before && n.toForward !in before && n.toInput !in before
    ensures var cs := Hooked(Hooked(before, n.filter, n.forward, n.toForward), n.filter, n.input, n.toInput);
            && cs.Keys == before.Keys + {n.toForward, n.toInput}
            && (forall c :: c in before && c != n.forward && c != n.input ==> cs[c] == before[c])
            && cs[n.forward] == before[n.forward].(rules := [JumpProgram(n.toForward)] + before[n.forward].rules)
            && cs[n.input] == before[n.input].(rules := [JumpProgram(n.toInput)] + before[n.input].rules)
            && cs[n.toForward] == Chain(n.filter, None, []) == cs[n.toInput]
  {
  }

  lemma BatchPlaced(k: Kernel, n: Names, batch: seq<BuiltRule>, rf: seq<Rule>, masquerade: Rule, ri: seq<Rule>)
    requires Untouched(k, n) && Splits(batch, n, rf, masquerade, ri)
    ensures var s2 := AfterJumps(State(k, []), n);
            s2.queue == [] && s2.kernel.tables == k.tables && forall b :: b in batch ==> Placed(s2.kernel, b)
  {
    JumpsInPlace(k, n);
    HookedContents(k.chains, n);
  }

  /** Once both jumps are in place, every rule of the batch has its chain and can be appended. */
  lemma BatchFits(k: Kernel, n: Names, batch: seq<BuiltRule>, rf: seq<Rule>, masquerade: Rule, ri: seq<Rule>)
    requires Untouched(k, n) && Splits(batch, n, rf, masquerade, ri)
    ensures var s2 := AfterJumps(State(k, []), n);
            && s2.queue == [] && s2.kernel.tables == k.tables
            && (forall b :: b in batch ==> Placed(s2.kernel, b))
            && AllApplicable(s2.kernel, s2.queue + FilterNew(s2.kernel, batch))
  {
    BatchPlaced(k, n, batch, rf, masquerade, ri);
    NewOnesApplicable(AfterJumps(State(k, []), n), batch);
  }

  lemma NewOnesApplicable(s: State, batch: seq<BuiltRule>)
    requires s.queue == [] && forall b :: b in batch ==> Placed(s.kernel, b)
    ensures AllApplicable(s.kernel, s.queue + FilterNew(s.kernel, batch))
  {
    FilterNewIsKept(s.kernel, batch);
    AppendsApplicable(s.kernel, Kept(s.kernel, batch));
    assert s.queue + FilterNew(s.kernel, batch) == FilterNew(s.kernel, batch);
  }

  lemma PlacedIsLocatable(k: Kernel, requests: seq<Request>)
    requires forall b :: b in BuiltFrom(requests) ==> Placed(k, b) && b.table in k.tables && b.table != "" && b.chain != ""
    ensures forall q :: q in requests ==> Locatable(k, q.table, q.chain)
  {
    forall q | q in requests ensures Locatable(k, q.table, q.chain) {
      var i :| 0 <= i < |requests| && requests[i] == q;
      assert BuiltFrom(requests)[i] in BuiltFrom(requests);
    }
  }

  lemma {:induction false} AppendsApplicable(k: Kernel, batch: seq<BuiltRule>)
    requires forall b :: b in batch ==> Placed(k, b)
    ensures AllApplicable(k, AllOf(batch))
    decreases |batch|
  {
    if batch != [] {
      assert batch[0] in batch;
      assert AllOf(batch)[1..] == AllOf(batch[1..]);
      var k' := Apply(k, AppendOf(batch[0]));
      forall b | b in batch[1..] ensures Placed(k', b) {
        assert b in batch;
      }
      AppendsApplicable(k', batch[1..]);
    }
  }

  /** One chain of the result: what the jumps left, then what of the batch is new to it. */
  lemma ResultPerChain(k: Kernel, n: Names, batch: seq<BuiltRule>, rf: seq<Rule>, masquerade: Rule, ri: seq<Rule>, c: string)
    requires Untouched(k, n) && Splits(batch, n, rf, masquerade, ri)
    ensures var s2 := AfterJumps(State(k, []), n);
            var cs, now := s2.kernel.chains, AddSpec(s2, batch).kernel.chains;
            && now.Keys == cs.Keys
            && (c in cs ==> now[c] == cs[c].(rules := cs[c].rules + Unequal(cs[c].rules, AppendsFor(batch, c))))
  {
    var s2 := AfterJumps(State(k, []), n);
    BatchFits(k, n, batch, rf, masquerade, ri);
    BothResults(s2, batch, c);
    if c in s2.kernel.chains {
      KeptPerChain(s2.kernel, batch, c);
    }
  }

  lemma NothingUnequal(installed: seq<Rule>)
    ensures Unequal(installed, []) == []
  {
  }

  /** Two hooked chains whose contents grow by the parts of the batch have the extended shape. */
  lemma GrowingHooked(before: Chains, cs: Chains, now: Chains, n: Names, batch: seq<BuiltRule>, rf: seq<Rule>, masquerade: Rule, ri: seq<Rule>)
    requires n.Distinct() && SplitByChain(batch, n, rf, masquerade, ri)
    requires n.forward in before && n.input in before && n.postrouting in before
    requires n.toForward !in before && n.toInput !in before
    requires cs == Hooked(Hooked(before, n.filter, n.forward, n.toForward), n.filter, n.input, n.toInput)
    requires now.Keys == cs.Keys
    requires forall c :: c in cs ==> now[c] == cs[c].(rules := cs[c].rules + Unequal(cs[c].rules, AppendsFor(batch, c)))
    ensures Extended(before, now, n, true, rf, true, ri, Unequal(before[n.postrouting].rules, [masquerade]))
  {
    hide Unequal, AppendsFor, Hooked, JumpProgram;
    HookedContents(before, n);
    forall c | c in before && c != n.postrouting ensures now[c] == cs[c] {
      NothingUnequal(cs[c].rules);
      assert cs[c].rules + [] == cs[c].rules;
    }
    UnequalToNone(rf);
    UnequalToNone(ri);
    assert [] + rf == rf && [] + ri == ri;
  }

  /** The result of a successful run in closed form. */
  lemma ResultInPlace(k: Kernel, n: Names, batch: seq<BuiltRule>, rf: seq<Rule>, masquerade: Rule, ri: seq<Rule>)
    requires Untouched(k, n) && Splits(batch, n, rf, masquerade, ri)
    ensures Extended(k.chains, AddSpec(AfterJumps(State(k, []), n), batch).kernel.chains, n,
                     true, rf, true, ri, NewTail(k, n, masquerade))
  {
    JumpsInPlace(k, n);
    var s2 := AfterJumps(State(k, []), n);
    var cs, now := s2.kernel.chains, AddSpec(s2, batch).kernel.chains;
    forall c ensures now.Keys == cs.Keys
                  && (c in cs ==> now[c] == cs[c].(rules := cs[c].rules + Unequal(cs[c].rules, AppendsFor(batch, c))))
    {
      ResultPerChain(k, n, batch, rf, masquerade, ri, c);
    }
    GrowingHooked(k.chains, cs, now, n, batch, rf, masquerade, ri);
  }

  // ---- Packets ----

  /** A rule list before the jump runs as it did, because no chain it calls was edited. */
  lemma UneditedRunsAlike(m: Machine, before: Chains, now: Chains, rank: map<string, nat>, c: string, fuel: nat)
    requires WellFormed(m, before, rank) && c in before && before.Keys <= now.Keys
    requires forall d :: d in before && before[d].policy == None ==> now[d].rules == before[d].rules
    ensures RunRules(m, now, fuel, before[c].rules) == RunRules(m, before, fuel, before[c].rules)
  {
    var cone := set d | d in before && before[d].policy == None;
    Frame(m, before, now, cone, fuel, before[c].rules);
  }

  /** How every chain ends under the extended ruleset, in terms of how it ended before. */
  lemma ExtendedEndings(m: Machine, before: Chains, now: Chains, rank: map<string, nat>, n: Names,
                        jf: bool, rf: seq<Rule>, ji: bool, ri: seq<Rule>, post: seq<Rule>, fuel: nat, c: string)
    requires Extended(before, now, n, jf, rf, ji, ri, post) && WellFormed(m, before, rank)
    requires before[n.forward].policy.Some? && before[n.input].policy.Some? && before[n.postrouting].policy.Some?
    requires fuel > 0 && c in before
    ensures RunChain(m, now, fuel, c)
         == if (c == n.forward && jf) || (c == n.input && ji) then
              (match RunRules(m, now, fuel - 1, if c == n.forward then rf else ri)
               case Decided(a) => Decided(a)
               case Stuck => Stuck
               case _ => RunChain(m, before, fuel, c))
            else if c == n.postrouting && RunChain(m, before, fuel, c) == EndOfRules then RunRules(m, now, fuel, post)
            else RunChain(m, before, fuel, c)
  {
    UneditedRunsAlike(m, before, now, rank, c, fuel);
    assert [] + before[c].rules == before[c].rules;
    if c == n.forward && jf {
      RunWithHeadJump(m, now, fuel, n.toForward, before[c].rules);
    } else if c == n.input && ji {
      RunWithHeadJump(m, now, fuel, n.toInput, before[c].rules);
    } else if c == n.postrouting {
      RunConcat(m, now, fuel, before[c].rules, post);
    }
  }

  /** A list of rules that accept or pass on accepts exactly when one of them does. */
  lemma {:induction false} RunAccepting(m: Machine, cs: Chains, fuel: nat, rules: seq<Rule>)
    requires forall i :: 0 <= i < |rules| ==> m.Outcome(rules[i]) in {Final(Accepted), NextRule}
    ensures RunRules(m, cs, fuel, rules)
         == if exists i :: 0 <= i < |rules| && m.Outcome(rules[i]) == Final(Accepted) then Decided(Accepted) else EndOfRules
    decreases |rules|
  {
    if rules != [] {
      RunAccepting(m, cs, fuel, rules[1..]);
      forall i | 1 <= i < |rules| ensures rules[1..][i - 1] == rules[i] {}
    }
  }

  /** Traffic between the bridge and the host interface, in either direction. */
  predicate BridgeTraffic(pkt: Packet, name: Bytes, hostIf: Bytes) {
    (pkt.iif == name && pkt.oif == hostIf) || (pkt.iif == hostIf && pkt.oif == name)
  }

  /** DNS and DHCP traffic, over UDP and over TCP. */
  predicate ServiceTraffic(pkt: Packet) {
    || AddressedTo(pkt, 53, "udp") || AddressedTo(pkt, 67, "udp") || AddressedTo(pkt, 68, "udp")
    || AddressedTo(pkt, 53, "tcp") || AddressedTo(pkt, 67, "tcp") || AddressedTo(pkt, 68, "tcp")
  }

  lemma ForwardRulesRun(m: Machine, cs: Chains, fuel: nat, name: Bytes, hostIf: Bytes)
    requires ValidName(name) && ValidName(hostIf) && ValidName(m.pkt.iif) && ValidName(m.pkt.oif)
    ensures RunRules(m, cs, fuel, ForwardRules(name, hostIf))
         == if BridgeTraffic(m.pkt, name, hostIf) then Decided(Accepted) else EndOfRules
  {
    var rules := ForwardRules(name, hostIf);
    OutboundExact(m, hostIf, name);
    ReturnMirrorsOutbound(m, hostIf, name);
    assert m.Outcome(rules[0]) == m.Outcome(OutboundProgram(hostIf, name));
    assert m.Outcome(rules[1]) == m.Outcome(ReturnProgram(hostIf, name));
    RunAccepting(m, cs, fuel, rules);
  }

  lemma PortRulesRun(m: Machine, cs: Chains, fuel: nat)
    ensures RunRules(m, cs, fuel, PortRules()) == if ServiceTraffic(m.pkt) then Decided(Accepted) else EndOfRules
  {
    var rules := PortRules();
    PortExact(m, 53, "udp");
    PortExact(m, 67, "udp");
    PortExact(m, 68, "udp");
    PortExact(m, 53, "tcp");
    PortExact(m, 67, "tcp");
    PortExact(m, 68, "tcp");
    assert m.Outcome(rules[0]) == m.Outcome(PortProgram(53, "udp")) && m.Outcome(rules[1]) == m.Outcome(PortProgram(67, "udp"));
    assert m.Outcome(rules[2]) == m.Outcome(PortProgram(68, "udp")) && m.Outcome(rules[3]) == m.Outcome(PortProgram(53, "tcp"));
    assert m.Outcome(rules[4]) == m.Outcome(PortProgram(67, "tcp")) && m.Outcome(rules[5]) == m.Outcome(PortProgram(68, "tcp"));
    RunAccepting(m, cs, fuel, rules);
  }

  /** The masquerade rule at the end, whether it is new or was installed before. */
  lemma MasqueradeRuns(m: Machine, k: Kernel, n: Names, cs: Chains, fuel: nat, hostIf: Bytes)
    requires n.postrouting in k.chains && AllLoadable(k) && ValidName(hostIf) && ValidName(m.pkt.oif)
    requires RunChain(m, k.chains, fuel, n.postrouting) == EndOfRules
    ensures RunRules(m, cs, fuel, NewTail(k, n, MasqueradeProgram(hostIf)))
         == if m.pkt.oif == hostIf then Decided(Masqueraded) else EndOfRules
  {
    var rule, installed := MasqueradeProgram(hostIf), k.chains[n.postrouting].rules;
    MasqueradeExact(m, hostIf);
    assert rule == Program(Masquerade(hostIf));
    assert Unequal(installed, [rule][1..]) == [];
    if EqualsSome(rule, installed) {
      var i :| 0 <= i < |installed| && EqualExprs(rule, installed[i]);
      EqualMeansSameEffect(Masquerade(hostIf), installed[i]);
      ExhaustedMeansNoDecision(m, k.chains, fuel, installed, installed[i]);
      assert m.Outcome(rule) == m.Outcome(installed[i]);
    }
  }

  /** ExtendedEndings when both new chains only accept or pass on. */
  lemma AcceptingEndings(m: Machine, before: Chains, now: Chains, rank: map<string, nat>, n: Names,
                         rf: seq<Rule>, hitF: bool, ri: seq<Rule>, hitI: bool, post: seq<Rule>, fuel: nat, c: string)
    requires Extended(before, now, n, true, rf, true, ri, post) && WellFormed(m, before, rank)
    requires before[n.forward].policy.Some? && before[n.input].policy.Some? && before[n.postrouting].policy.Some?
    requires fuel > 0 && c in before
    requires RunRules(m, now, fuel - 1, rf) == if hitF then Decided(Accepted) else EndOfRules
    requires RunRules(m, now, fuel - 1, ri) == if hitI then Decided(Accepted) else EndOfRules
    ensures RunChain(m, now, fuel, c)
         == if (c == n.forward && hitF) || (c == n.input && hitI) then Decided(Accepted)
            else if c == n.postrouting && RunChain(m, before, fuel, c) == EndOfRules then RunRules(m, now, fuel, post)
            else RunChain(m, before, fuel, c)
  {
    ExtendedEndings(m, before, now, rank, n, true, rf, true, ri, post, fuel, c);
  }

  /** The chains after a successful run from an empty queue. */
  ghost function FinalChains(k: Kernel, prefix: string, name: Bytes, hostIf: Bytes): Chains {
    ConfigureSpec(State(k, []), prefix, name, hostIf).kernel.chains
  }

  lemma VerdictsOfFinal(m: Machine, k: Kernel, rank: map<string, nat>, prefix: string, name: Bytes, hostIf: Bytes, fuel: nat, c: string)
    requires Untouched(k, BridgeNames(prefix)) && WellFormed(m, k.chains, rank) && AllLoadable(k) && fuel > 0 && c in k.chains
    requires ValidName(name) && ValidName(hostIf) && ValidName(m.pkt.iif) && ValidName(m.pkt.oif)
    ensures ChainVerdict(m, FinalChains(k, prefix, name, hostIf), fuel, c)
         == if (c == FORWARD && BridgeTraffic(m.pkt, name, hostIf)) || (c == INPUT && ServiceTraffic(m.pkt)) then Some(Accepted)
            else if c == POSTROUTING && m.pkt.oif == hostIf && RunChain(m, k.chains, fuel, c) == EndOfRules then Some(Masqueraded)
            else ChainVerdict(m, k.chains, fuel, c)
    ensures c !in {FORWARD, INPUT, POSTROUTING} ==>
              RunChain(m, FinalChains(k, prefix, name, hostIf), fuel, c) == RunChain(m, k.chains, fuel, c)
  {
    hide Requests, BuiltFrom, ForwardRules, PortRules, BridgeTraffic, ServiceTraffic, RunRules, AddSpec, AfterJumps;
    var batch, now := BuiltFrom(Requests(prefix, name, hostIf)), FinalChains(k, prefix, name, hostIf);
    var rf, ri := ForwardRules(name, hostIf), PortRules();
    RequestsSplit(prefix, name, hostIf);
    ForwardRulesRun(m, now, fuel - 1, name, hostIf);
    PortRulesRun(m, now, fuel - 1);
    VerdictsFromParts(m, k, rank, BridgeNames(prefix), batch, rf, BridgeTraffic(m.pkt, name, hostIf), ri, ServiceTraffic(m.pkt), hostIf, fuel, c);
  }

  /** Service traffic is TCP (protocol 6) or UDP (17) over IPv4 to port 53, 67 or 68. */
  lemma ServiceInNumbers(pkt: Packet)
    ensures ServiceTraffic(pkt)
       <==> && |pkt.network| >= 16 && (pkt.network[9] == 6 || pkt.network[9] == 17) && |pkt.transport| >= 4
            && var port := BigEndian(pkt.transport[2], pkt.transport[3]);
               port == 53 || port == 67 || port == 68
  {
    hide AddressedTo, BigEndian;
    AddressedInNumbers(pkt, 53, "udp");
    AddressedInNumbers(pkt, 67, "udp");
    AddressedInNumbers(pkt, 68, "udp");
    AddressedInNumbers(pkt, 53, "tcp");
    AddressedInNumbers(pkt, 67, "tcp");
    AddressedInNumbers(pkt, 68, "tcp");
  }

  /**
   The end-to-end specification of configure-bridge, in names and numbers. Whatever rules were there,
   after a successful run FORWARD accepts what goes between the bridge and the host interface, and
   INPUT accepts TCP and UDP over IPv4 to ports 53, 67 and 68; every other packet keeps the verdict it
   had; POSTROUTING masquerades what leaves through the host interface once no older rule decides it;
   and every other chain ends on every packet as before.
   */
  lemma ConfigureBridgeVerdicts(m: Machine, k: Kernel, rank: map<string, nat>, prefix: string, name: Bytes, hostIf: Bytes, fuel: nat, c: string)
    requires Untouched(k, Names("filter", "nat", "FORWARD", "INPUT", "POSTROUTING", prefix + "FORWARD", prefix + "INPUT"))
    requires WellFormed(m, k.chains, rank) && AllLoadable(k) && fuel > 0 && c in k.chains
    requires ValidName(name) && ValidName(hostIf) && ValidName(m.pkt.iif) && ValidName(m.pkt.oif)
    ensures var ip, segment := m.pkt.network, m.pkt.transport;
            var between := (m.pkt.iif == name && m.pkt.oif == hostIf) || (m.pkt.iif == hostIf && m.pkt.oif == name);
            var service := && |ip| >= 16 && (ip[9] == 6 || ip[9] == 17) && |segment| >= 4
                           && var port := BigEndian(segment[2], segment[3]);
                              port == 53 || port == 67 || port == 68;
            ChainVerdict(m, FinalChains(k, prefix, name, hostIf), fuel, c)
            == if (c == "FORWARD" && between) || (c == "INPUT" && service) then Some(Accepted)
               else if c == "POSTROUTING" && m.pkt.oif == hostIf && RunChain(m, k.chains, fuel, c) == EndOfRules then Some(Masqueraded)
               else ChainVerdict(m, k.chains, fuel, c)
    ensures c != "FORWARD" && c != "INPUT" && c != "POSTROUTING" ==>
              RunChain(m, FinalChains(k, prefix, name, hostIf), fuel, c) == RunChain(m, k.chains, fuel, c)
  {
    hide ServiceTraffic, Untouched, FinalChains, RunChain, ChainVerdict, BigEndian;
    ServiceInNumbers(m.pkt);
    VerdictsOfFinal(m, k, rank, prefix, name, hostIf, fuel, c);
  }

  /** A firewall with the standard base chains and no rules is one that the theorems are about. */
  lemma FreshFirewall(m: Machine, prefix: string, policy: Action)
    requires prefix != ""
    ensures var chains := map["FORWARD" := Chain("filter", Some(policy), []), "INPUT" := Chain("filter", Some(policy), []),
                              "POSTROUTING" := Chain("nat", Some(policy), [])];
            var k := Kernel({"filter", "nat"}, chains);
            && Untouched(k, Names("filter", "nat", "FORWARD", "INPUT", "POSTROUTING", prefix + "FORWARD", prefix + "INPUT"))
            && WellFormed(m, chains, map["FORWARD" := 0, "INPUT" := 0, "POSTROUTING" := 0]) && AllLoadable(k)
  {
    var forward, input := prefix + "FORWARD", prefix + "INPUT";
    assert |forward| > 7 && forward[|forward| - 1] == 'D' && |input| > 5 && input[|input| - 1] == 'T';
    assert "POSTROUTING"[|"POSTROUTING"| - 1] == 'G' && "FORWARD"[|"FORWARD"| - 1] == 'D' && |"FORWARD"| == 7 && |"INPUT"| == 5;
    BridgeNamesDistinct(prefix);
  }

  /** Where the command puts its rules: behind one jump each at the head of FORWARD and INPUT, in chains named after them. */
  lemma ConfigureBridgePlaces(k: Kernel, prefix: string, name: Bytes, hostIf: Bytes)
    requires Untouched(k, Names("filter", "nat", "FORWARD", "INPUT", "POSTROUTING", prefix + "FORWARD", prefix + "INPUT"))
    ensures var now, forward, input := FinalChains(k, prefix, name, hostIf), prefix + "FORWARD", prefix + "INPUT";
            && k.chains.Keys <= now.Keys && forward in now && input in now
            && now["FORWARD"].rules == [[Verdict(Jump, forward)]] + k.chains["FORWARD"].rules
            && now["INPUT"].rules == [[Verdict(Jump, input)]] + k.chains["INPUT"].rules
            && |now[forward].rules| == 2 && |now[input].rules| == 6
  {
    hide Requests, BuiltFrom, AddSpec, AfterJumps, OutboundProgram, ReturnProgram, PortProgram, MasqueradeProgram;
    RequestsSplit(prefix, name, hostIf);
    ResultInPlace(k, BridgeNames(prefix), BuiltFrom(Requests(prefix, name, hostIf)), ForwardRules(name, hostIf), MasqueradeProgram(hostIf), PortRules());
  }

  /** The same for any batch that splits, given how its parts run. */
  lemma VerdictsFromParts(m: Machine, k: Kernel, rank: map<string, nat>, n: Names, batch: seq<BuiltRule>,
                          rf: seq<Rule>, hitF: bool, ri: seq<Rule>, hitI: bool, hostIf: Bytes, fuel: nat, c: string)
    requires Untouched(k, n) && WellFormed(m, k.chains, rank) && AllLoadable(k) && fuel > 0 && c in k.chains
    requires ValidName(hostIf) && ValidName(m.pkt.oif)
    requires Splits(batch, n, rf, MasqueradeProgram(hostIf), ri)
    requires var now := AddSpec(AfterJumps(State(k, []), n), batch).kernel.chains;
             && RunRules(m, now, fuel - 1, rf) == (if hitF then Decided(Accepted) else EndOfRules)
             && RunRules(m, now, fuel - 1, ri) == (if hitI then Decided(Accepted) else EndOfRules)
    ensures var now := AddSpec(AfterJumps(State(k, []), n), batch).kernel.chains;
            && ChainVerdict(m, now, fuel, c)
               == (if (c == n.forward && hitF) || (c == n.input && hitI) then Some(Accepted)
                   else if c == n.postrouting && m.pkt.oif == hostIf && RunChain(m, k.chains, fuel, c) == EndOfRules then Some(Masqueraded)
                   else ChainVerdict(m, k.chains, fuel, c))
            && (c != n.forward && c != n.input && c != n.postrouting ==> RunChain(m, now, fuel, c) == RunChain(m, k.chains, fuel, c))
  {
    var now := AddSpec(AfterJumps(State(k, []), n), batch).kernel.chains;
    var post := NewTail(k, n, MasqueradeProgram(hostIf));
    ResultInPlace(k, n, batch, rf, MasqueradeProgram(hostIf), ri);
    AcceptingEndings(m, k.chains, now, rank, n, rf, hitF, ri, hitI, post, fuel, c);
    if RunChain(m, k.chains, fuel, n.postrouting) == EndOfRules {
      MasqueradeRuns(m, k, n, now, fuel, hostIf);
    }
  }

  /** The ruleset at each point where the two jumps can stop early. */
  lemma FailureInPlace(k: Kernel, n: Names, s': State)
    requires Untouched(k, n)
    requires || JumpFailed(State(k, []), n.forward, n.toForward, n.filter, s')
             || JumpFailed(JumpSpec(State(k, []), n.forward, n.toForward, n.filter), n.input, n.toInput, n.filter, s')
             || s'.kernel == AfterJumps(State(k, []), n).kernel
    ensures exists jf, ji :: Extended(k.chains, s'.kernel.chains, n, jf, [], ji, [], [])
  {
    JumpsInPlace(k, n);
    JumpToNewChain(k, n.filter, n.forward, n.toForward);
    var k1 := k.(chains := Hooked(k.chains, n.filter, n.forward, n.toForward));
    assert k1.chains[n.input] == k.chains[n.input];
    JumpToNewChain(k1, n.filter, n.input, n.toInput);
    if s'.kernel == k || s'.kernel == BothChains(State(k, []), n.forward, n.toForward, n.filter).kernel {
      assert Extended(k.chains, s'.kernel.chains, n, false, [], false, [], []);
    } else if s'.kernel == k1 || s'.kernel == BothChains(State(k1, []), n.input, n.toInput, n.filter).kernel {
      assert Extended(k.chains, s'.kernel.chains, n, true, [], false, [], []);
    } else {
      assert Extended(k.chains, s'.kernel.chains, n, true, [], true, [], []);
    }
  }

  /** All or nothing for packets: a run that fails, at any point, changes the fate of no packet in any chain. */
  lemma FailedConfigureChangesNoVerdict(m: Machine, k: Kernel, rank: map<string, nat>, prefix: string, name: Bytes, hostIf: Bytes,
                                        s': State, fuel: nat, c: string)
    requires Untouched(k, BridgeNames(prefix)) && WellFormed(m, k.chains, rank) && fuel > 0 && c in k.chains
    requires ConfigureFailed(State(k, []), prefix, name, hostIf, s')
    ensures RunChain(m, s'.kernel.chains, fuel, c) == RunChain(m, k.chains, fuel, c)
    ensures ChainVerdict(m, s'.kernel.chains, fuel, c) == ChainVerdict(m, k.chains, fuel, c)
  {
    var n := BridgeNames(prefix);
    FailureInPlace(k, n, s');
    var jf, ji :| Extended(k.chains, s'.kernel.chains, n, jf, [], ji, [], []);
    ExtendedEndings(m, k.chains, s'.kernel.chains, rank, n, jf, [], ji, [], [], fuel, c);
  }

  /** Running the command again changes nothing. */
  lemma ConfigureTwice(k: Kernel, prefix: string, name: Bytes, hostIf: Bytes)
    requires Untouched(k, BridgeNames(prefix))
    ensures var once := ConfigureSpec(State(k, []), prefix, name, hostIf);
            ConfigureSpec(once, prefix, name, hostIf) == once
  {
    RequestsSplit(prefix, name, hostIf);
    TwiceFromParts(k, BridgeNames(prefix), BuiltFrom(Requests(prefix, name, hostIf)), ForwardRules(name, hostIf), MasqueradeProgram(hostIf), PortRules());
  }

  lemma TwiceFromParts(k: Kernel, n: Names, batch: seq<BuiltRule>, rf: seq<Rule>, masquerade: Rule, ri: seq<Rule>)
    requires Untouched(k, n) && Splits(batch, n, rf, masquerade, ri)
    ensures var once := AddSpec(AfterJumps(State(k, []), n), batch);
            AddSpec(AfterJumps(once, n), batch) == once
  {
    var s2 := AfterJumps(State(k, []), n);
    var once := AddSpec(s2, batch);
    ResultInPlace(k, n, batch, rf, masquerade, ri);
    BatchFits(k, n, batch, rf, masquerade, ri);
    var cs := once.kernel.chains;
    assert cs[n.forward].rules[0] == JumpProgram(n.toForward) && CallsChain(cs[n.forward].rules[0][0], n.toForward);
    assert cs[n.input].rules[0] == JumpProgram(n.toInput) && CallsChain(cs[n.input].rules[0][0], n.toInput);
    assert HasJump(cs[n.forward].rules, n.toForward) && HasJump(cs[n.input].rules, n.toInput);
    assert AfterJumps(once, n) == once;
    AddRulesIdempotent(s2, batch);
  }

  // ---- Running again after a failure ----

  /** A jump that is there already is kept, and nothing else happens. */
  lemma JumpKept(k: Kernel, table: string, base: string, added: string)
    requires base in k.chains && added in k.chains && HasJump(k.chains[base].rules, added)
    ensures JumpSpec(State(k, []), base, added, table) == State(k, [])
  {
  }

  /** A jump that failed can be made from wherever it stopped, with the same result. */
  lemma JumpRetried(k: Kernel, table: string, base: string, added: string, s': State)
    requires base in k.chains && added !in k.chains && !HasJump(k.chains[base].rules, added)
    requires JumpFailed(State(k, []), base, added, table, s')
    ensures s'.kernel.tables == k.tables && (s'.kernel == k || s'.kernel.chains == k.chains[added := Chain(table, None, [])])
    ensures JumpSpec(s'.Emptied(), base, added, table) == JumpSpec(State(k, []), base, added, table)
  {
    JumpToNewChain(k, table, base, added);
    if s'.kernel != k {
      JumpToEmptyChain(s'.kernel, table, base, added);
      assert Hooked(k.chains, table, base, added) == WithJump(s'.kernel.chains, base, added);
    }
  }

  lemma JumpToEmptyChain(k: Kernel, table: string, base: string, added: string)
    requires base in k.chains && added in k.chains && !HasJump(k.chains[base].rules, added)
    ensures JumpSpec(State(k, []), base, added, table) == State(k.(chains := WithJump(k.chains, base, added)), [])
  {
    var cmd := InsertRule(table, base, JumpProgram(added));
    assert [] + [cmd] == [cmd];
    assert ApplyAll(k, [cmd]) == Apply(k, cmd);
  }

  lemma HeadJumps(rules: seq<Rule>, to: string)
    requires rules != [] && rules[0] == JumpProgram(to)
    ensures HasJump(rules, to)
  {
    assert CallsChain(rules[0][0], to);
  }

  /** Both jumps, made again from wherever a run stopped, end where they would have ended. */
  lemma JumpsRetried(k: Kernel, n: Names, s': State)
    requires Untouched(k, n)
    requires || JumpFailed(State(k, []), n.forward, n.toForward, n.filter, s')
             || JumpFailed(JumpSpec(State(k, []), n.forward, n.toForward, n.filter), n.input, n.toInput, n.filter, s')
             || s'.kernel == AfterJumps(State(k, []), n).kernel
    ensures AfterJumps(s'.Emptied(), n) == AfterJumps(State(k, []), n)
  {
    hide JumpSpec, JumpFailed;
    JumpsInPlace(k, n);
    var k1 := k.(chains := Hooked(k.chains, n.filter, n.forward, n.toForward));
    assert k1.chains[n.input] == k.chains[n.input];
    HeadJumps(k1.chains[n.forward].rules, n.toForward);
    if JumpFailed(State(k, []), n.forward, n.toForward, n.filter, s') {
      JumpRetried(k, n.filter, n.forward, n.toForward, s');
    } else if JumpFailed(State(k1, []), n.input, n.toInput, n.filter, s') {
      JumpRetried(k1, n.filter, n.input, n.toInput, s');
      JumpKept(s'.kernel, n.filter, n.forward, n.toForward);
    } else {
      var k2 := s'.kernel;
      HeadJumps(k2.chains[n.input].rules, n.toInput);
      JumpKept(k2, n.filter, n.forward, n.toForward);
      JumpKept(k2, n.filter, n.input, n.toInput);
    }
  }

  /**
   Recovery. A run that failed anywhere, followed by a successful one with a fresh connection, ends
   exactly where one successful run ends.
   */
  lemma RerunAfterFailure(k: Kernel, prefix: string, name: Bytes, hostIf: Bytes, s': State)
    requires Untouched(k, BridgeNames(prefix)) && ConfigureFailed(State(k, []), prefix, name, hostIf, s')
    ensures ConfigureSpec(s'.Emptied(), prefix, name, hostIf) == ConfigureSpec(State(k, []), prefix, name, hostIf)
  {
    hide Requests, BuiltFrom, JumpSpec, JumpFailed, Untouched;
    JumpsRetried(k, BridgeNames(prefix), s');
  }
}
