/**
 Packet semantics of a ruleset: a register machine for the expressions the builders emit, and
 chains that run rules in order, call user chains and end in a policy.

 Expressions no builder emits are interpreted by an arbitrary `env`, so every theorem about this
 semantics holds whatever other tools put in the chains.
 */
module PacketFilter {
  import opened Wrappers
  import opened Exprs
  import Address

  const IFNAMSIZ: nat := 16

  /** A packet at a hook: interface names, then the bytes from the network and transport headers on. */
  datatype Packet = Packet(iif: Bytes, oif: Bytes, network: Bytes, transport: Bytes)

  datatype Action = Accepted | Dropped | Masqueraded | OtherAction(code: nat)

  /** Register contents; a register that was never written reads as zeros. */
  type Regs = map<nat, Bytes>

  /** What one rule does to a packet. */
  datatype Outcome =
    | NextRule
    | Final(action: Action)
    | JumpTo(chain: string)
    | GotoTo(chain: string)
    | ReturnNow

  /** What one expression does: go on with the rule, or end it. */
  datatype StepResult = Continue(regs: Regs) | End(outcome: Outcome)

  /** Meaning of the expressions that no builder emits. */
  type Env = (Expr, Packet, Regs) -> StepResult

  function Zeros(n: nat): (z: Bytes)
    ensures |z| == n
  {
    seq(n, i => 0)
  }

  /** Overwrites the front of a register and keeps the rest. */
  function Store(regs: Regs, r: nat, data: Bytes): Regs {
    var prior := if r in regs then regs[r] else [];
    regs[r := if |data| < |prior| then data + prior[|data|..] else data]
  }

  function Fetch(regs: Regs, r: nat, n: nat): (data: Bytes)
    ensures |data| == n
  {
    var held := if r in regs then regs[r] else [];
    if n <= |held| then held[..n] else held + Zeros(n - |held|)
  }

  /** Writing a register sets its front and keeps everything else. */
  lemma StoreMeans(regs: Regs, r: nat, data: Bytes, r': nat, n: nat, i: nat)
    requires i < n
    ensures Fetch(Store(regs, r, data), r', n)[i] == if r' == r && i < |data| then data[i] else Fetch(regs, r', n)[i]
  {
  }

  /** An interface name as the kernel loads it: padded with NUL bytes to IFNAMSIZ. */
  function Padded(name: Bytes): Bytes {
    if |name| < IFNAMSIZ then name + Zeros(IFNAMSIZ - |name|) else name
  }

  predicate Compare(op: CmpOp, held: Bytes, data: Bytes)
    requires |held| == |data|
  {
    match op
    case CmpEq => held == data
    case CmpNeq => held != data
    case CmpLt => Lex(held, data)
    case CmpLte => held == data || Lex(held, data)
    case CmpGt => Lex(data, held)
    case CmpGte => held == data || Lex(data, held)
  }

  /** Loads `len` bytes of a header, or gives up on the rule when they are not there. */
  function Load(regs: Regs, dest: nat, header: Bytes, offset: nat, len: nat): StepResult {
    if offset + len <= |header| then Continue(Store(regs, dest, header[offset..offset + len])) else End(NextRule)
  }

  function Step(env: Env, e: Expr, pkt: Packet, regs: Regs): StepResult {
    match e
    case Meta(IifName, r, false) => Continue(Store(regs, r, Padded(pkt.iif)))
    case Meta(OifName, r, false) => Continue(Store(regs, r, Padded(pkt.oif)))
    case Cmp(op, r, data) => if Compare(op, Fetch(regs, r, |data|), data) then Continue(regs) else End(NextRule)
    case Payload(dest, NetworkHeader, offset, len, false) => Load(regs, dest, pkt.network, offset, len)
    case Payload(dest, TransportHeader, offset, len, false) => Load(regs, dest, pkt.transport, offset, len)
    case Verdict(Accept, _) => End(Final(Accepted))
    case Verdict(Drop, _) => End(Final(Dropped))
    case Verdict(Return, _) => End(ReturnNow)
    case Verdict(Jump, c) => End(JumpTo(c))
    case Verdict(Goto, c) => End(GotoTo(c))
    case Masq(_) => End(Final(Masqueraded))
    case _ => env(e, pkt, regs)
  }

  /** Runs the expressions of a rule from position `i`; reaching the end leads to the next rule. */
  function RunFrom(env: Env, es: seq<Expr>, i: nat, pkt: Packet, regs: Regs): Outcome
    decreases |es| - i
  {
    if i >= |es| then NextRule
    else
      match Step(env, es[i], pkt, regs)
      case Continue(regs') => RunFrom(env, es, i + 1, pkt, regs')
      case End(o) => o
  }

  /** A rule starts from the register contents `scratch`, which no rule can rely on. */
  function RunRule(env: Env, es: seq<Expr>, pkt: Packet, scratch: Regs): Outcome {
    RunFrom(env, es, 0, pkt, scratch)
  }

  type Rule = seq<Expr>

  /** A chain of a table; `policy` is Some for the base chains that packets enter. */
  datatype Chain = Chain(table: string, policy: Option<Action>, rules: seq<Rule>)

  /** Chains by name. Chain names are unique across tables. */
  type Chains = map<string, Chain>

  /** What evaluating rules in order ends in; Stuck when the call depth `fuel` is used up. */
  datatype Ending = EndOfRules | Returned | Decided(action: Action) | Stuck

  /** Everything but the ruleset that evaluation depends on. */
  datatype Machine = Machine(env: Env, scratch: Regs, pkt: Packet) {
    function Outcome(r: Rule): Outcome {
      RunRule(env, r, pkt, scratch)
    }
  }

  function RunRules(m: Machine, cs: Chains, fuel: nat, rules: seq<Rule>): Ending
    decreases fuel, 0, |rules|
  {
    if rules == [] then EndOfRules
    else
      match m.Outcome(rules[0])
      case Final(a) => Decided(a)
      case ReturnNow => Returned
      case JumpTo(c) =>
        (match Call(m, cs, fuel, c)
         case EndOfRules => RunRules(m, cs, fuel, rules[1..])
         case Returned => RunRules(m, cs, fuel, rules[1..])
         case e => e)
      case GotoTo(c) =>
        (match Call(m, cs, fuel, c)
         case EndOfRules => Returned
         case e => e)
      case NextRule => RunRules(m, cs, fuel, rules[1..])
  }

  function Call(m: Machine, cs: Chains, fuel: nat, c: string): Ending
    decreases fuel, 0, 0
  {
    if fuel == 0 then Stuck else RunChain(m, cs, fuel - 1, c)
  }

  function RunChain(m: Machine, cs: Chains, fuel: nat, c: string): Ending
    decreases fuel, 1, 0
  {
    if c in cs then RunRules(m, cs, fuel, cs[c].rules) else Stuck
  }

  /** The fate of a packet that enters base chain `c`; None when it has none. */
  function ChainVerdict(m: Machine, cs: Chains, fuel: nat, c: string): Option<Action> {
    match RunChain(m, cs, fuel, c)
    case Decided(a) => Some(a)
    case Stuck => None
    case _ => if c in cs then cs[c].policy else None
  }

  /** The chain that a rule calls on this packet, if any. */
  function Target(m: Machine, r: Rule): Option<string> {
    match m.Outcome(r)
    case JumpTo(c) => Some(c)
    case GotoTo(c) => Some(c)
    case _ => None
  }

  /** Whatever chain a rule of `rules` calls is in `cone`. */
  ghost predicate CallsWithin(m: Machine, rules: seq<Rule>, cone: set<string>) {
    forall i :: 0 <= i < |rules| ==> Target(m, rules[i]) == None || Target(m, rules[i]).value in cone
  }

  /**
   What the kernel demands of a ruleset: calls go to existing chains that are not base chains, and
   strictly down in `rank`, so the call graph has no cycle.
   */
  ghost predicate WellFormed(m: Machine, cs: Chains, rank: map<string, nat>) {
    && cs.Keys == rank.Keys
    && forall c, i :: c in cs && 0 <= i < |cs[c].rules| && Target(m, cs[c].rules[i]).Some? ==>
         var d := Target(m, cs[c].rules[i]).value;
         d in cs && cs[d].policy == None && rank[d] < rank[c]
  }

  /** Appending: the second list runs exactly when the first one is exhausted. */
  lemma {:induction false} RunConcat(m: Machine, cs: Chains, fuel: nat, a: seq<Rule>, b: seq<Rule>)
    ensures RunRules(m, cs, fuel, a + b)
         == if RunRules(m, cs, fuel, a) == EndOfRules then RunRules(m, cs, fuel, b) else RunRules(m, cs, fuel, a)
    decreases |a|
  {
    if a == [] {
      assert a + b == b;
    } else {
      assert (a + b)[1..] == a[1..] + b;
      RunConcat(m, cs, fuel, a[1..], b);
    }
  }

  lemma CallRuns(m: Machine, cs: Chains, fuel: nat, c: string)
    requires fuel > 0 && c in cs
    ensures Call(m, cs, fuel, c) == RunRules(m, cs, fuel - 1, cs[c].rules)
  {
  }

  /** Evaluation reads only the chains of a cone that is closed under calls. */
  lemma {:induction false} Frame(m: Machine, cs: Chains, cs': Chains, cone: set<string>, fuel: nat, rules: seq<Rule>)
    requires forall c :: c in cone ==> c in cs && c in cs' && cs[c].rules == cs'[c].rules
    requires forall c :: c in cone ==> CallsWithin(m, cs[c].rules, cone)
    requires CallsWithin(m, rules, cone)
    ensures RunRules(m, cs, fuel, rules) == RunRules(m, cs', fuel, rules)
    decreases fuel, |rules|
  {
    if rules != [] {
      assert CallsWithin(m, rules[1..], cone);
      Frame(m, cs, cs', cone, fuel, rules[1..]);
      assert Target(m, rules[0]) == None || Target(m, rules[0]).value in cone;
      if Target(m, rules[0]).Some? && fuel > 0 {
        var d := Target(m, rules[0]).value;
        Frame(m, cs, cs', cone, fuel - 1, cs[d].rules);
        CallRuns(m, cs, fuel, d);
        CallRuns(m, cs', fuel, d);
      }
    }
  }

  /** With an acyclic call graph evaluation never runs out of depth, and extra depth changes nothing. */
  lemma {:induction false} DepthSuffices(m: Machine, cs: Chains, rank: map<string, nat>, fuel: nat, fuel': nat, c: string, rules: seq<Rule>)
    requires WellFormed(m, cs, rank)
    requires c in cs && fuel >= rank[c] && fuel' >= rank[c]
    requires forall r :: r in rules ==> r in cs[c].rules
    ensures RunRules(m, cs, fuel, rules) != Stuck
    ensures RunRules(m, cs, fuel, rules) == RunRules(m, cs, fuel', rules)
    decreases fuel, |rules|
  {
    if rules != [] {
      assert rules[0] in rules;
      DepthSuffices(m, cs, rank, fuel, fuel', c, rules[1..]);
      if Target(m, rules[0]).Some? {
        var d := Target(m, rules[0]).value;
        var i :| 0 <= i < |cs[c].rules| && cs[c].rules[i] == rules[0];
        assert rank[d] < rank[c];
        DepthSuffices(m, cs, rank, fuel - 1, fuel' - 1, d, cs[d].rules);
        CallRuns(m, cs, fuel, d);
        CallRuns(m, cs, fuel', d);
      }
    }
  }

  /** A chain that begins with a verdict ends as nftables documents it, and a policy stands in for a missing decision. */
  lemma VerdictsDecide(m: Machine, cs: Chains, fuel: nat, rest: seq<Rule>, c: string)
    ensures RunRules(m, cs, fuel, [[Verdict(Accept, "")]] + rest) == Decided(Accepted)
    ensures RunRules(m, cs, fuel, [[Verdict(Drop, "")]] + rest) == Decided(Dropped)
    ensures RunRules(m, cs, fuel, [[Verdict(Return, "")]] + rest) == Returned
    ensures c in cs && cs[c].rules == [] && fuel > 0 ==>
              && RunRules(m, cs, fuel, [[Verdict(Jump, c)]] + rest) == RunRules(m, cs, fuel, rest)
              && RunRules(m, cs, fuel, [[Verdict(Goto, c)]] + rest) == Returned
    ensures c in cs && cs[c].rules == [] ==> ChainVerdict(m, cs, fuel, c) == cs[c].policy
  {
    RunsVerdict(m, cs, fuel, Verdict(Accept, ""), rest);
    RunsVerdict(m, cs, fuel, Verdict(Drop, ""), rest);
    RunsVerdict(m, cs, fuel, Verdict(Return, ""), rest);
    if c in cs && cs[c].rules == [] {
      assert RunChain(m, cs, fuel, c) == RunRules(m, cs, fuel, cs[c].rules) == EndOfRules;
      if fuel > 0 {
        CallsEmpty(m, cs, fuel, c, rest);
      }
    }
  }

  lemma CallsEmpty(m: Machine, cs: Chains, fuel: nat, c: string, rest: seq<Rule>)
    requires c in cs && cs[c].rules == [] && fuel > 0
    ensures RunRules(m, cs, fuel, [[Verdict(Jump, c)]] + rest) == RunRules(m, cs, fuel, rest)
    ensures RunRules(m, cs, fuel, [[Verdict(Goto, c)]] + rest) == Returned
  {
    var jump, goto := [Verdict(Jump, c)], [Verdict(Goto, c)];
    assert Call(m, cs, fuel, c) == RunChain(m, cs, fuel - 1, c) == RunRules(m, cs, fuel - 1, cs[c].rules) == EndOfRules;
    assert m.Outcome(jump) == RunFrom(m.env, jump, 0, m.pkt, m.scratch) == JumpTo(c);
    assert m.Outcome(goto) == RunFrom(m.env, goto, 0, m.pkt, m.scratch) == GotoTo(c);
    assert ([jump] + rest)[1..] == rest && ([goto] + rest)[1..] == rest;
  }

  lemma RunsVerdict(m: Machine, cs: Chains, fuel: nat, v: Expr, rest: seq<Rule>)
    requires v.Verdict? && (v.kind == Accept || v.kind == Drop || v.kind == Return)
    ensures RunRules(m, cs, fuel, [[v]] + rest)
         == if v.kind == Accept then Decided(Accepted) else if v.kind == Drop then Decided(Dropped) else Returned
  {
    assert m.Outcome([v]) == RunFrom(m.env, [v], 0, m.pkt, m.scratch);
  }

  /** The comparisons are those of the numbers that the bytes stand for. */
  lemma CompareIsNumeric(held: Bytes, data: Bytes)
    requires |held| == |data|
    ensures Compare(CmpEq, held, data) <==> Address.Value(held) == Address.Value(data)
    ensures Compare(CmpNeq, held, data) <==> Address.Value(held) != Address.Value(data)
    ensures Compare(CmpLt, held, data) <==> Address.Value(held) < Address.Value(data)
    ensures Compare(CmpLte, held, data) <==> Address.Value(held) <= Address.Value(data)
    ensures Compare(CmpGt, held, data) <==> Address.Value(held) > Address.Value(data)
    ensures Compare(CmpGte, held, data) <==> Address.Value(held) >= Address.Value(data)
  {
    hide Address.Value, Lex;
    Address.LexIsNumeric(held, data);
    Address.LexIsNumeric(data, held);
  }
}
