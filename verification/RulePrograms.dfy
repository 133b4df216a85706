/** The expression programs the rule builders emit, and exactly which packets each one matches. */
module RulePrograms {
  import opened Wrappers
  import opened Exprs
  import opened PacketFilter

  /** An interface name the kernel can have: no NUL byte and room for the terminator. */
  ghost predicate ValidName(name: Bytes) {
    |name| < IFNAMSIZ && forall i :: 0 <= i < |name| ==> name[i] != 0
  }

  /** A name of at most fifteen bytes without NUL is one the kernel can have, and no other. */
  lemma ValidNameExactly(name: Bytes)
    ensures ValidName(name) <==> |name| <= 15 && 0 !in name
  {
  }

  function Terminated(name: Bytes): Bytes {
    name + [0]
  }

  function OutboundProgram(hostIf: Bytes, internalIf: Bytes): Rule {
    [Meta(IifName, 1, false), Cmp(CmpEq, 1, Terminated(internalIf)),
     Meta(OifName, 2, false), Cmp(CmpEq, 2, Terminated(hostIf)),
     Verdict(Accept, "")]
  }

  function ReturnProgram(hostIf: Bytes, internalIf: Bytes): Rule {
    [Meta(IifName, 1, false), Cmp(CmpEq, 1, Terminated(hostIf)),
     Meta(OifName, 2, false), Cmp(CmpEq, 2, Terminated(internalIf)),
     Verdict(Accept, "")]
  }

  function MasqueradeProgram(interfaceName: Bytes): Rule {
    [Meta(OifName, 1, false), Cmp(CmpEq, 1, Terminated(interfaceName)), Masq(0)]
  }

  function ProtocolNumber(proto: string): bv8 {
    if proto == "tcp" then 6 else if proto == "udp" then 17 else 0
  }

  /** Port number in network byte order. */
  function Htons(port: bv16): Bytes {
    [((port >> 8) & 0xff) as bv8, (port & 0xff) as bv8]
  }

  function PortProgram(port: bv16, proto: string): Rule {
    [Payload(1, NetworkHeader, 9, 1, false), Cmp(CmpEq, 1, [ProtocolNumber(proto)]),
     Payload(1, TransportHeader, 2, 2, false), Cmp(CmpEq, 1, Htons(port)),
     Payload(1, NetworkHeader, 12, 4, false),
     Verdict(Accept, "")]
  }

  function JumpProgram(chain: string): Rule {
    [Verdict(Jump, chain)]
  }

  /** The 16-bit number that two header bytes in network byte order stand for. */
  function BigEndian(hi: bv8, lo: bv8): bv16 {
    ((hi as bv16) << 8) | (lo as bv16)
  }

  lemma SplitThenJoin(port: bv16)
    ensures BigEndian(((port >> 8) & 0xff) as bv8, (port & 0xff) as bv8) == port
  {
  }

  lemma JoinThenSplit(hi: bv8, lo: bv8)
    ensures ((BigEndian(hi, lo) >> 8) & 0xff) as bv8 == hi && (BigEndian(hi, lo) & 0xff) as bv8 == lo
  {
  }

  /** Decoding the two bytes undoes Htons, and nothing else decodes to the port. */
  lemma HtonsDecodes(port: bv16, hi: bv8, lo: bv8)
    ensures Htons(port) == [hi, lo] <==> BigEndian(hi, lo) == port
  {
    SplitThenJoin(port);
    JoinThenSplit(hi, lo);
    assert Htons(port)[0] == ((port >> 8) & 0xff) as bv8 && Htons(port)[1] == (port & 0xff) as bv8;
  }

  /** Comparing with the terminator included matches whole names only, from any register contents. */
  lemma NameCompareExact(regs: Regs, r: nat, name: Bytes, loaded: Bytes)
    requires ValidName(name) && ValidName(loaded)
    ensures Fetch(Store(regs, r, Padded(loaded)), r, |name| + 1) == Terminated(name) <==> loaded == name
  {
    var held := Store(regs, r, Padded(loaded))[r];
    var n := |name| + 1;
    assert Fetch(Store(regs, r, Padded(loaded)), r, n) == held[..n] == Padded(loaded)[..n];
    assert forall i :: 0 <= i < n ==> held[i] == if i < |loaded| then loaded[i] else 0;
    if held[..n] == Terminated(name) {
      assert forall i :: 0 <= i < n ==> held[i] == Terminated(name)[i];
      assert held[|name|] == 0;
      assert forall i :: 0 <= i < |loaded| && i < |name| ==> loaded[i] == name[i];
      var k := if |loaded| < |name| then |loaded| else |name|;
      assert held[k] == Terminated(name)[k];
    }
  }

  /** The shape shared by the two forward programs. */
  lemma InterfacePairExact(m: Machine, rule: Rule, iif: Bytes, oif: Bytes)
    requires ValidName(iif) && ValidName(oif) && ValidName(m.pkt.iif) && ValidName(m.pkt.oif)
    requires rule == [Meta(IifName, 1, false), Cmp(CmpEq, 1, Terminated(iif)),
                      Meta(OifName, 2, false), Cmp(CmpEq, 2, Terminated(oif)), Verdict(Accept, "")]
    ensures m.Outcome(rule)
         == if m.pkt.iif == iif && m.pkt.oif == oif then Final(Accepted) else NextRule
  {
    var r1 := Store(m.scratch, 1, Padded(m.pkt.iif));
    var r2 := Store(r1, 2, Padded(m.pkt.oif));
    NameCompareExact(m.scratch, 1, iif, m.pkt.iif);
    NameCompareExact(r1, 2, oif, m.pkt.oif);
    assert m.Outcome(rule) == RunFrom(m.env, rule, 1, m.pkt, r1);
    if m.pkt.iif == iif {
      assert m.Outcome(rule) == RunFrom(m.env, rule, 2, m.pkt, r1) == RunFrom(m.env, rule, 3, m.pkt, r2);
      if m.pkt.oif == oif {
        assert RunFrom(m.env, rule, 3, m.pkt, r2) == RunFrom(m.env, rule, 4, m.pkt, r2);
      }
    }
  }

  /** ForwardOutboundRule accepts exactly the packets from the bridge to the host interface. */
  lemma OutboundExact(m: Machine, hostIf: Bytes, internalIf: Bytes)
    requires ValidName(hostIf) && ValidName(internalIf) && ValidName(m.pkt.iif) && ValidName(m.pkt.oif)
    ensures m.Outcome(OutboundProgram(hostIf, internalIf))
         == if m.pkt.iif == internalIf && m.pkt.oif == hostIf then Final(Accepted) else NextRule
  {
    InterfacePairExact(m, OutboundProgram(hostIf, internalIf), internalIf, hostIf);
  }

  /** The return rule treats a packet as the outbound rule treats it with the interfaces swapped. */
  lemma ReturnMirrorsOutbound(m: Machine, hostIf: Bytes, internalIf: Bytes)
    requires ValidName(hostIf) && ValidName(internalIf) && ValidName(m.pkt.iif) && ValidName(m.pkt.oif)
    ensures m.Outcome(ReturnProgram(hostIf, internalIf))
         == m.(pkt := m.pkt.(iif := m.pkt.oif, oif := m.pkt.iif)).Outcome(OutboundProgram(hostIf, internalIf))
    ensures m.Outcome(ReturnProgram(hostIf, internalIf))
         == if m.pkt.iif == hostIf && m.pkt.oif == internalIf then Final(Accepted) else NextRule
  {
    InterfacePairExact(m, ReturnProgram(hostIf, internalIf), hostIf, internalIf);
    OutboundExact(m.(pkt := m.pkt.(iif := m.pkt.oif, oif := m.pkt.iif)), hostIf, internalIf);
  }

  /** MasqueradeRule translates exactly the packets that leave through the named interface. */
  lemma MasqueradeExact(m: Machine, interfaceName: Bytes)
    requires ValidName(interfaceName) && ValidName(m.pkt.oif)
    ensures m.Outcome(MasqueradeProgram(interfaceName))
         == if m.pkt.oif == interfaceName then Final(Masqueraded) else NextRule
  {
    var rule := MasqueradeProgram(interfaceName);
    var r1 := Store(m.scratch, 1, Padded(m.pkt.oif));
    NameCompareExact(m.scratch, 1, interfaceName, m.pkt.oif);
    assert m.Outcome(rule) == RunFrom(m.env, rule, 1, m.pkt, r1);
    if m.pkt.oif == interfaceName {
      assert RunFrom(m.env, rule, 1, m.pkt, r1) == RunFrom(m.env, rule, 2, m.pkt, r1);
    }
  }

  /** The packet carries the protocol number and, in the transport header, the destination port. */
  predicate AddressedTo(pkt: Packet, port: bv16, proto: string) {
    && |pkt.network| >= 16 && pkt.network[9] == ProtocolNumber(proto)
    && |pkt.transport| >= 4 && BigEndian(pkt.transport[2], pkt.transport[3]) == port
  }

  lemma FetchStored(regs: Regs, r: nat, data: Bytes)
    ensures Fetch(Store(regs, r, data), r, |data|) == data
  {
  }

  /**
   PortRule accepts exactly the packets with that protocol byte and destination port. The last load
   only demands that the source address be there; a complete IPv4 header always has it.
   */
  lemma PortExact(m: Machine, port: bv16, proto: string)
    ensures m.Outcome(PortProgram(port, proto))
         == if AddressedTo(m.pkt, port, proto) then Final(Accepted) else NextRule
  {
    var rule := PortProgram(port, proto);
    var pkt := m.pkt;
    if |pkt.network| >= 10 {
      var data := pkt.network[9..10];
      var r1 := Store(m.scratch, 1, data);
      FetchStored(m.scratch, 1, data);
      assert data == [pkt.network[9]];
      assert m.Outcome(rule) == RunFrom(m.env, rule, 1, pkt, r1);
      if pkt.network[9] == ProtocolNumber(proto) {
        assert m.Outcome(rule) == RunFrom(m.env, rule, 2, pkt, r1);
        PortTail(m, port, proto, r1);
      }
    }
  }

  /** The second half of the program: the port comparison and the trailing load. */
  lemma PortTail(m: Machine, port: bv16, proto: string, r1: Regs)
    ensures RunFrom(m.env, PortProgram(port, proto), 2, m.pkt, r1)
         == if |m.pkt.transport| >= 4 && BigEndian(m.pkt.transport[2], m.pkt.transport[3]) == port && |m.pkt.network| >= 16
            then Final(Accepted) else NextRule
  {
    var rule := PortProgram(port, proto);
    var pkt := m.pkt;
    if |pkt.transport| >= 4 {
      var data := pkt.transport[2..4];
      var r2 := Store(r1, 1, data);
      FetchStored(r1, 1, data);
      assert data == [pkt.transport[2], pkt.transport[3]];
      HtonsDecodes(port, pkt.transport[2], pkt.transport[3]);
      assert RunFrom(m.env, rule, 2, pkt, r1) == RunFrom(m.env, rule, 3, pkt, r2);
      if data == Htons(port) {
        assert RunFrom(m.env, rule, 3, pkt, r2) == RunFrom(m.env, rule, 4, pkt, r2);
        if |pkt.network| >= 16 {
          var r3 := Store(r2, 1, pkt.network[12..16]);
          assert RunFrom(m.env, rule, 4, pkt, r2) == RunFrom(m.env, rule, 5, pkt, r3);
        }
      }
    }
  }

  /** The decoded number is the high byte times 256 plus the low byte. */
  lemma BigEndianIsTimes256(hi: bv8, lo: bv8)
    ensures BigEndian(hi, lo) == (hi as bv16) * 256 + (lo as bv16)
  {
  }

  lemma ProtocolNumbers(proto: string)
    ensures ProtocolNumber(proto) == if proto == "tcp" then 6 else if proto == "udp" then 17 else 0
  {
  }

  lemma AddressedInNumbers(pkt: Packet, port: bv16, proto: string)
    ensures var number: bv8 := if proto == "tcp" then 6 else if proto == "udp" then 17 else 0;
            AddressedTo(pkt, port, proto)
            <==> |pkt.network| >= 16 && pkt.network[9] == number
                 && |pkt.transport| >= 4 && BigEndian(pkt.transport[2], pkt.transport[3]) == port
  {
    hide BigEndian, ProtocolNumber;
    ProtocolNumbers(proto);
  }

  /**
   The port rules in the terms of the protocols: UDP is protocol 17 and TCP 6, in byte 9 of the IPv4
   header; the destination port is in bytes 2 and 3 of either transport header, high byte first. Any
   other protocol name stands for number 0.
   */
  lemma PortRuleAccepts(m: Machine, port: bv16, proto: string)
    ensures var number: bv8 := if proto == "tcp" then 6 else if proto == "udp" then 17 else 0;
            var ip, segment := m.pkt.network, m.pkt.transport;
            m.Outcome(PortProgram(port, proto))
            == if |ip| >= 16 && ip[9] == number && |segment| >= 4 && BigEndian(segment[2], segment[3]) == port
               then Final(Accepted) else NextRule
  {
    hide AddressedTo, PortProgram, RunRule, BigEndian;
    PortExact(m, port, proto);
    AddressedInNumbers(m.pkt, port, proto);
  }

  /** Each rule the builders can emit, as one closed list. */
  datatype Spec =
    | ForwardOutbound(hostIf: Bytes, internalIf: Bytes)
    | ForwardReturn(hostIf: Bytes, internalIf: Bytes)
    | Masquerade(interfaceName: Bytes)
    | Port(port: bv16, proto: string)

  function Program(spec: Spec): Rule {
    match spec
    case ForwardOutbound(h, i) => OutboundProgram(h, i)
    case ForwardReturn(h, i) => ReturnProgram(h, i)
    case Masquerade(n) => MasqueradeProgram(n)
    case Port(p, proto) => PortProgram(p, proto)
  }

  /** Each builder makes the rule of its name. */
  lemma BuildersMatch(m: Machine, hostIf: Bytes, internalIf: Bytes, port: bv16, proto: string)
    requires ValidName(hostIf) && ValidName(internalIf) && ValidName(m.pkt.iif) && ValidName(m.pkt.oif)
    ensures m.Outcome(Program(ForwardOutbound(hostIf, internalIf)))
         == if m.pkt.iif == internalIf && m.pkt.oif == hostIf then Final(Accepted) else NextRule
    ensures m.Outcome(Program(ForwardReturn(hostIf, internalIf)))
         == if m.pkt.iif == hostIf && m.pkt.oif == internalIf then Final(Accepted) else NextRule
    ensures m.Outcome(Program(Masquerade(hostIf))) == if m.pkt.oif == hostIf then Final(Masqueraded) else NextRule
    ensures Program(Port(port, proto)) == PortProgram(port, proto)
  {
    hide OutboundProgram, ReturnProgram, MasqueradeProgram, RunRule;
    OutboundExact(m, hostIf, internalIf);
    ReturnMirrorsOutbound(m, hostIf, internalIf);
    MasqueradeExact(m, hostIf);
  }

  /** A rule the kernel can hold: interface names are read-only and payload writes load no register. */
  ghost predicate Loadable(rule: Rule) {
    forall i :: 0 <= i < |rule| ==> LoadableExpr(rule[i])
  }

  predicate LoadableExpr(e: Expr) {
    && (e.Meta? && e.sourceRegister ==> e.key.OtherKey?)
    && (e.Payload? && e.write ==> e.dest == 0)
  }

  /** A rule that either leads to the next rule or decides the packet: it never calls a chain. */
  ghost predicate Terminal(rule: Rule) {
    forall m: Machine :: m.Outcome(rule).NextRule? || m.Outcome(rule).Final?
  }

  /** Two rules do the same to every packet. */
  ghost predicate SameEffect(a: Rule, b: Rule) {
    forall m: Machine :: m.Outcome(a) == m.Outcome(b)
  }

  predicate CallsChain(e: Expr, chain: string) {
    e.Verdict? && e.kind == Jump && e.chain == chain
  }

  lemma ProgramsAreSimple(spec: Spec)
    ensures forall j :: 0 <= j < |Program(spec)| ==> Simple(Program(spec)[j])
  {
  }

  lemma SimpleIsPlain(e: Expr, chain: string)
    ensures Simple(e) ==> LoadableExpr(e) && !e.Other? && !CallsChain(e, chain)
  {
  }

  /** The built programs decide or fall through, jump nowhere, and are made of supported kinds. */
  lemma ProgramsAreTerminal(spec: Spec)
    ensures Terminal(Program(spec)) && Supported(Program(spec)) && Loadable(Program(spec))
    ensures forall e, chain :: e in Program(spec) ==> !CallsChain(e, chain)
  {
    hide Program, Simple, LoadableExpr, CallsChain;
    ProgramsAreSimple(spec);
    forall e, chain ensures Simple(e) ==> LoadableExpr(e) && !e.Other? && !CallsChain(e, chain) {
      SimpleIsPlain(e, chain);
    }
    forall m: Machine ensures m.Outcome(Program(spec)).NextRule? || m.Outcome(Program(spec)).Final? {
      StaysTerminal(m.env, Program(spec), 0, m.pkt, m.scratch);
    }
    forall i | 0 <= i < |Program(spec)| ensures LoadableExpr(Program(spec)[i]) && !Program(spec)[i].Other? {
      SimpleIsPlain(Program(spec)[i], "");
    }
  }

  predicate Simple(e: Expr) {
    || (e.Meta? && !e.key.OtherKey? && !e.sourceRegister)
    || e.Cmp?
    || (e.Payload? && !e.base.LinkHeader? && !e.write && e.dest != 0)
    || (e.Verdict? && e.kind == Accept)
    || e.Masq?
  }

  lemma {:induction false} StaysTerminal(env: Env, rule: Rule, i: nat, pkt: Packet, regs: Regs)
    requires forall j :: i <= j < |rule| ==> Simple(rule[j])
    ensures RunFrom(env, rule, i, pkt, regs).NextRule? || RunFrom(env, rule, i, pkt, regs).Final?
    decreases |rule| - i
  {
    if i < |rule| {
      match Step(env, rule[i], pkt, regs)
      case Continue(regs') => StaysTerminal(env, rule, i + 1, pkt, regs');
      case End(o) =>
    }
  }

  /**
   Soundness of equalExprs for the rules the builders emit: an installed rule that compares equal
   has the same effect on every packet, although the comparison skips fields.
   */
  lemma EqualMeansSameEffect(spec: Spec, installed: Rule)
    requires EqualExprs(Program(spec), installed) && Loadable(installed)
    ensures SameEffect(Program(spec), installed)
  {
    forall m: Machine ensures m.Outcome(Program(spec)) == m.Outcome(installed) {
      EqualRunsAlike(m.env, Program(spec), installed, 0, m.pkt, m.scratch);
    }
  }

  lemma EqualStepsAlike(env: Env, e: Expr, e': Expr, pkt: Packet, regs: Regs)
    requires ExprEqual(e, e') && Simple(e) && LoadableExpr(e')
    ensures Step(env, e, pkt, regs) == Step(env, e', pkt, regs)
  {
  }

  lemma {:induction false} EqualRunsAlike(env: Env, rule: Rule, installed: Rule, i: nat, pkt: Packet, regs: Regs)
    requires EqualExprs(rule, installed) && Loadable(installed)
    requires forall j :: 0 <= j < |rule| ==> Simple(rule[j])
    ensures RunFrom(env, rule, i, pkt, regs) == RunFrom(env, installed, i, pkt, regs)
    decreases |rule| - i
  {
    hide ExprEqual, Simple, LoadableExpr, Step;
    if i < |rule| {
      EqualStepsAlike(env, rule[i], installed[i], pkt, regs);
      match Step(env, rule[i], pkt, regs)
      case Continue(regs') => EqualRunsAlike(env, rule, installed, i + 1, pkt, regs');
      case End(o) =>
    }
  }
}
