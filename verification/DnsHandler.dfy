/** Answering a DNS request: the system resolver first, then the upstream servers in order. */
module DnsHandler {
  import opened Wrappers
  import opened Address

  const TYPE_A := 1
  const TYPE_AAAA := 28
  const RCODE_SUCCESS := 0
  const RCODE_SERVFAIL := 2
  const SYSTEM_RESOLVER_TTL := 60

  datatype Question = Question(name: string, qtype: nat)

  datatype Record =
    | A(name: string, ttl: nat, ip: Bytes)
    | AAAA(name: string, ttl: nat, ip: Bytes)
    | OtherRecord(rrtype: nat, data: Bytes)

  datatype Msg = Msg(id: nat, opcode: nat, response: bool, questions: seq<Question>, rcode: nat,
                     authoritative: bool, recursionAvailable: bool, answers: seq<Record>)

  /** An empty reply to a request: its id, opcode and first question, and no error. */
  function SetReply(r: Msg): Msg {
    Msg(r.id, r.opcode, true, if r.questions == [] then [] else [r.questions[0]], RCODE_SUCCESS, false, false, [])
  }

  function ServFail(r: Msg): Msg {
    SetReply(r).(rcode := RCODE_SERVFAIL)
  }

  // ---- The system resolver ----

  predicate IsV4(ip: Bytes) {
    To4(ip).Some?
  }

  /** The addresses that parse, in order. */
  function Parsed(parse: string -> Option<Bytes>, addrs: seq<string>): seq<Bytes> {
    if addrs == [] then []
    else
      var last := parse(addrs[|addrs| - 1]);
      Parsed(parse, addrs[..|addrs| - 1]) + if last.Some? then [last.value] else []
  }

  /** The addresses of one family, in order. */
  function Family(ips: seq<Bytes>, v4: bool): seq<Bytes> {
    if ips == [] then []
    else
      var last := ips[|ips| - 1];
      Family(ips[..|ips| - 1], v4) + if IsV4(last) == v4 then [last] else []
  }

  function RecordOf(name: string, ip: Bytes, v4: bool): Record
    requires v4 ==> IsV4(ip)
  {
    if v4 then A(name, SYSTEM_RESOLVER_TTL, To4(ip).value) else AAAA(name, SYSTEM_RESOLVER_TTL, ip)
  }

  /** One record for each address of the family. */
  predicate RecordsFor(records: seq<Record>, name: string, ips: seq<Bytes>, v4: bool) {
    && |records| == |ips|
    && forall i :: 0 <= i < |ips| ==> (v4 ==> IsV4(ips[i])) && records[i] == RecordOf(name, ips[i], v4)
  }

  lemma {:induction false} FamilyStep(ips: seq<Bytes>, ip: Bytes, v4: bool)
    ensures Family(ips + [ip], v4) == if IsV4(ip) == v4 then Family(ips, v4) + [ip] else Family(ips, v4)
  {
  }

  /** `s` comes from `t` by leaving values out. */
  predicate Subsequence<T(==)>(s: seq<T>, t: seq<T>) {
    if s == [] then true
    else if t == [] then false
    else if s[|s| - 1] == t[|t| - 1] && Subsequence(s[..|s| - 1], t[..|t| - 1]) then true
    else Subsequence(s, t[..|t| - 1])
  }

  lemma NoFamily(v4: bool)
    ensures Family([], v4) == []
  {
  }

  /** The two families split the addresses between them ... */
  lemma {:induction false} FamiliesPartition(ips: seq<Bytes>)
    ensures multiset(Family(ips, true)) + multiset(Family(ips, false)) == multiset(ips)
  {
    hide IsV4, Family;
    if ips == [] {
      NoFamily(true);
      NoFamily(false);
    } else {
      var front, last := ips[..|ips| - 1], ips[|ips| - 1];
      FamiliesPartition(front);
      FamilyStep(front, last, true);
      FamilyStep(front, last, false);
      assert ips == front + [last];
    }
  }

  /** ... each in the original order. */
  lemma {:induction false} FamilyInOrder(ips: seq<Bytes>, v4: bool)
    ensures Subsequence(Family(ips, v4), ips)
  {
    hide IsV4, Family, Subsequence;
    NoFamily(v4);
    EmptyInOrder(ips);
    if ips != [] {
      var front, last := ips[..|ips| - 1], ips[|ips| - 1];
      FamilyInOrder(front, v4);
      FamilyStep(front, last, v4);
      KeepsOrder(front, Family(front, v4), last);
      assert ips == front + [last];
    }
  }

  lemma EmptyInOrder<T>(t: seq<T>)
    ensures Subsequence([], t)
  {
  }

  lemma KeepsOrder<T>(t: seq<T>, s: seq<T>, x: T)
    requires Subsequence(s, t)
    ensures Subsequence(s, t + [x]) && Subsequence(s + [x], t + [x])
  {
  }

  lemma NoRecords(parse: string -> Option<Bytes>, name: string, v4: bool)
    ensures RecordsFor([], name, Family(Parsed(parse, []), v4), v4)
  {
  }

  /** One more record for one more address. */
  lemma RecordsStep(records: seq<Record>, name: string, ips: seq<Bytes>, v4: bool, ip: Bytes)
    requires RecordsFor(records, name, ips, v4) && (v4 ==> IsV4(ip))
    ensures RecordsFor(records + [RecordOf(name, ip, v4)], name, ips + [ip], v4)
  {
  }

  lemma {:induction false} FamilyIsOne(ips: seq<Bytes>, v4: bool)
    ensures forall ip :: ip in Family(ips, v4) <==> ip in ips && IsV4(ip) == v4
  {
    hide IsV4, Family;
    NoFamily(v4);
    if ips != [] {
      var front, last := ips[..|ips| - 1], ips[|ips| - 1];
      FamilyIsOne(front, v4);
      FamilyStep(front, last, v4);
      assert ips == front + [last];
    }
  }

  lemma ParsedStep(parse: string -> Option<Bytes>, addrs: seq<string>, addr: string)
    ensures var before := Parsed(parse, addrs);
            Parsed(parse, addrs + [addr]) == if parse(addr).Some? then before + [parse(addr).value] else before
  {
  }

  /** What the system resolver makes of a request, from what the look-up of the name returned. */
  ghost predicate SystemReply(lookup: Result<seq<string>>, parse: string -> Option<Bytes>, r: Msg, reply: Option<Msg>) {
    if |r.questions| != 1 || r.questions[0].qtype !in {TYPE_A, TYPE_AAAA} || lookup.Err? || lookup.value == [] then
      reply == None
    else
      var v4 := r.questions[0].qtype == TYPE_A;
      && reply.Some?
      && reply.value == SetReply(r).(recursionAvailable := true, answers := reply.value.answers)
      && RecordsFor(reply.value.answers, r.questions[0].name, Family(Parsed(parse, lookup.value), v4), v4)
  }

  lemma ReplyOrNone(lookup: Result<seq<string>>, parse: string -> Option<Bytes>, r: Msg, m: Msg)
    requires SystemReply(lookup, parse, r, Some(m))
    ensures !SystemReply(lookup, parse, r, None)
  {
  }

  /** The parsed addresses are those that some text of the look-up stands for. */
  lemma {:induction false} ParsedExactly(parse: string -> Option<Bytes>, addrs: seq<string>)
    ensures forall ip :: ip in Parsed(parse, addrs) <==> exists addr :: addr in addrs && parse(addr) == Some(ip)
    ensures |Parsed(parse, addrs)| <= |addrs|
    ensures (forall addr :: addr in addrs ==> parse(addr).Some?) ==> |Parsed(parse, addrs)| == |addrs|
  {
    if addrs != [] {
      var front, last := addrs[..|addrs| - 1], addrs[|addrs| - 1];
      ParsedExactly(parse, front);
      assert addrs == front + [last];
      ParsedStep(parse, front, last);
    }
  }

  /**
   The system resolver's reply in numbers: none exactly unless there is one question, of type 1 (A) or
   28 (AAAA), and the look-up gave addresses; else code 0, the request's id, opcode and question, and
   one record with 60 seconds for each address of the family: four bytes for A, the address for AAAA.
   */
  lemma SystemReplyMeans(lookup: Result<seq<string>>, parse: string -> Option<Bytes>, r: Msg, reply: Option<Msg>)
    requires SystemReply(lookup, parse, r, reply)
    ensures reply == None
       <==> |r.questions| != 1 || (r.questions[0].qtype != 1 && r.questions[0].qtype != 28) || lookup.Err? || lookup.value == []
    ensures reply.Some? ==>
              var m := reply.value;
              m.rcode == 0 && m.response && m.id == r.id && m.opcode == r.opcode && m.questions == r.questions
              && m.recursionAvailable && !m.authoritative
    ensures reply.Some? && r.questions[0].qtype == 1 ==>
              var ips, answers := Family(Parsed(parse, lookup.value), true), reply.value.answers;
              |answers| == |ips|
              && forall i :: 0 <= i < |ips| ==> (answers[i].A? && answers[i].name == r.questions[0].name && answers[i].ttl == 60
                                                && |answers[i].ip| == 4 && Written(ips[i], answers[i].ip))
    ensures reply.Some? && r.questions[0].qtype == 28 ==>
              var ips, answers := Family(Parsed(parse, lookup.value), false), reply.value.answers;
              |answers| == |ips| && forall i :: 0 <= i < |ips| ==> answers[i] == AAAA(r.questions[0].name, 60, ips[i])
  {
    hide Family, Parsed, To4, Written;
    forall ip: Bytes | To4(ip).Some? ensures |To4(ip).value| == 4 && Written(ip, To4(ip).value) {
      ShortOf(ip);
    }
  }

  /** A family holds the IPv4 addresses, written short or mapped, or the others. */
  lemma FamilyInBytes(ips: seq<Bytes>, ip: Bytes, short: Bytes)
    requires Written(ip, short)
    ensures ip in Family(ips, true) <==> ip in ips && |short| == 4
    ensures ip in Family(ips, false) <==> ip in ips && |short| == 16
  {
    hide Family, To4, Written;
    WrittenLengths(ip, short);
    ShortForm(ip, short);
    FamilyIsOne(ips, true);
    FamilyIsOne(ips, false);
  }

  method ResolveViaSystem(lookup: Result<seq<string>>, parse: string -> Option<Bytes>, r: Msg) returns (reply: Option<Msg>)
    ensures SystemReply(lookup, parse, r, reply)
  {
    hide To4, RecordsFor, Family, Parsed;
    if |r.questions| != 1 {
      return None;
    }
    var q := r.questions[0];
    if q.qtype != TYPE_A && q.qtype != TYPE_AAAA {
      return None;
    }
    if lookup.Err? {
      return None;
    }
    var addrs := lookup.value;
    if |addrs| == 0 {
      return None;
    }
    var resp := SetReply(r).(recursionAvailable := true);
    ghost var v4 := q.qtype == TYPE_A;
    NoRecords(parse, q.name, v4);
    for i := 0 to |addrs|
      invariant resp == SetReply(r).(recursionAvailable := true, answers := resp.answers)
      invariant RecordsFor(resp.answers, q.name, Family(Parsed(parse, addrs[..i]), v4), v4)
    {
      assert addrs[..i + 1] == addrs[..i] + [addrs[i]];
      ParsedStep(parse, addrs[..i], addrs[i]);
      var ip := parse(addrs[i]);
      if ip.Some? {
        FamilyStep(Parsed(parse, addrs[..i]), ip.value, v4);
        if IsV4(ip.value) == v4 {
          RecordsStep(resp.answers, q.name, Family(Parsed(parse, addrs[..i]), v4), v4, ip.value);
        }
        if To4(ip.value).Some? && q.qtype == TYPE_A {
          resp := resp.(answers := resp.answers + [A(q.name, SYSTEM_RESOLVER_TTL, To4(ip.value).value)]);
        } else if To4(ip.value).None? && q.qtype == TYPE_AAAA {
          resp := resp.(answers := resp.answers + [AAAA(q.name, SYSTEM_RESOLVER_TTL, ip.value)]);
        }
      }
    }
    assert addrs[..|addrs|] == addrs;
    return Some(resp);
  }

  // ---- The upstream servers ----

  /** An exchange with a server ends with an error, with no message, or with a message. */
  datatype Answer = Failed | NoMessage | Got(msg: Msg)

  datatype Exchange = Exchange(address: string, answer: Answer)

  predicate Successful(a: Answer) {
    a.Got? && a.msg.rcode == RCODE_SUCCESS
  }

  class ResponseWriter {
    var written: seq<Msg>

    constructor ()
      ensures written == []
    {
      written := [];
    }

    method WriteMsg(m: Msg)
      modifies this
      ensures written == old(written) + [m]
    {
      written := written + [m];
    }
  }

  /** Servers answer as they like; the log keeps what was asked and answered. */
  class Client {
    var log: seq<Exchange>

    constructor ()
      ensures log == []
    {
      log := [];
    }

    method ExchangeContext(r: Msg, address: string) returns (a: Answer)
      modifies this
      ensures log == old(log) + [Exchange(address, a)]
    {
      a := *;
      log := log + [Exchange(address, a)];
    }
  }

  /** The servers were asked in order, up to and including the first that succeeded. */
  ghost predicate AskedInOrder(servers: seq<string>, asked: seq<Exchange>) {
    && |asked| <= |servers|
    && (forall i :: 0 <= i < |asked| ==> asked[i].address == servers[i])
    && (forall i :: 0 <= i < |asked| - 1 ==> !Successful(asked[i].answer))
    && (|asked| < |servers| ==> asked != [] && Successful(asked[|asked| - 1].answer))
  }

  /** The first success, else the last message, else SERVFAIL. */
  ghost predicate Chosen(r: Msg, asked: seq<Exchange>, m: Msg) {
    || (exists i :: 0 <= i < |asked| && FirstSuccess(asked, i) && m == asked[i].answer.msg)
    || ((forall i :: 0 <= i < |asked| ==> !Successful(asked[i].answer))
        && exists i :: 0 <= i < |asked| && LastMessage(asked, i) && m == asked[i].answer.msg)
    || ((forall i :: 0 <= i < |asked| ==> !asked[i].answer.Got?) && m == ServFail(r))
  }

  predicate FirstSuccess(asked: seq<Exchange>, i: nat)
    requires i < |asked|
  {
    Successful(asked[i].answer) && forall j :: 0 <= j < i ==> !Successful(asked[j].answer)
  }

  predicate LastMessage(asked: seq<Exchange>, i: nat)
    requires i < |asked|
  {
    asked[i].answer.Got? && forall j :: i < j < |asked| ==> !asked[j].answer.Got?
  }

  /** The last message among the answers so far. */
  ghost predicate LastOf(asked: seq<Exchange>, last: Option<Msg>) {
    match last
    case None => forall i :: 0 <= i < |asked| ==> !asked[i].answer.Got?
    case Some(m) => exists i :: 0 <= i < |asked| && LastMessage(asked, i) && asked[i].answer.msg == m
  }

  lemma LastStep(asked: seq<Exchange>, last: Option<Msg>, e: Exchange)
    requires LastOf(asked, last)
    ensures LastOf(asked + [e], if e.answer.Got? then Some(e.answer.msg) else last)
  {
    if e.answer.Got? {
      assert LastMessage(asked + [e], |asked|);
    } else if last.Some? {
      var i :| 0 <= i < |asked| && LastMessage(asked, i) && asked[i].answer.msg == last.value;
      assert LastMessage(asked + [e], i);
    }
  }

  /** The first `i` servers were asked, none succeeded, and `last` is the last message. */
  ghost predicate Declined(servers: seq<string>, i: nat, asked: seq<Exchange>, last: Option<Msg>) {
    && |asked| == i <= |servers|
    && (forall k :: 0 <= k < i ==> asked[k].address == servers[k] && !Successful(asked[k].answer))
    && LastOf(asked, last)
  }

  lemma NothingAsked(servers: seq<string>)
    ensures Declined(servers, 0, [], None)
  {
  }

  /** Asking the next server ends with its success, or goes on. */
  lemma AskNext(r: Msg, servers: seq<string>, i: nat, asked: seq<Exchange>, last: Option<Msg>, answer: Answer)
    requires i < |servers| && Declined(servers, i, asked, last)
    ensures var asked' := asked + [Exchange(servers[i], answer)];
            if Successful(answer) then AskedInOrder(servers, asked') && Chosen(r, asked', answer.msg)
            else Declined(servers, i + 1, asked', if answer.Got? then Some(answer.msg) else last)
  {
    hide LastOf;
    var asked' := asked + [Exchange(servers[i], answer)];
    LastStep(asked, last, Exchange(servers[i], answer));
    if Successful(answer) {
      assert FirstSuccess(asked', i);
    }
  }

  lemma AllDeclined(r: Msg, servers: seq<string>, asked: seq<Exchange>, last: Option<Msg>)
    requires Declined(servers, |servers|, asked, last)
    ensures AskedInOrder(servers, asked) && Chosen(r, asked, if last.Some? then last.value else ServFail(r))
  {
  }

  /**
   What the failover loop hands out, in numbers: servers are asked in order and none after one whose
   message has code 0, which is then the answer; else the last message is; and when no server returned
   one, a reply to the request with code 2 (SERVFAIL) and no answers.
   */
  lemma ServedMeans(servers: seq<string>, asked: seq<Exchange>, r: Msg, m: Msg)
    requires AskedInOrder(servers, asked) && Chosen(r, asked, m)
    ensures |asked| <= |servers| && forall i :: 0 <= i < |asked| ==> asked[i].address == servers[i]
    ensures forall i :: 0 <= i < |asked| - 1 && asked[i].answer.Got? ==> asked[i].answer.msg.rcode != 0
    ensures |asked| < |servers| ==> asked != [] && asked[|asked| - 1].answer.Got? && asked[|asked| - 1].answer.msg.rcode == 0
    ensures forall i :: 0 <= i < |asked| && asked[i].answer.Got? && (forall j :: i < j < |asked| ==> !asked[j].answer.Got?) ==>
              m == asked[i].answer.msg
    ensures (forall i :: 0 <= i < |asked| ==> !asked[i].answer.Got?) ==>
              m.rcode == 2 && m.response && m.id == r.id && m.opcode == r.opcode && m.answers == []
              && m.questions == if r.questions == [] then [] else [r.questions[0]]
  {
    forall i | 0 <= i < |asked| && asked[i].answer.Got? && forall j :: i < j < |asked| ==> !asked[j].answer.Got?
      ensures m == asked[i].answer.msg
    {
      assert LastMessage(asked, i);
      LastIsHanded(r, asked, m, i);
    }
  }

  lemma LastIsHanded(r: Msg, asked: seq<Exchange>, m: Msg, i: nat)
    requires i < |asked| && LastMessage(asked, i) && Chosen(r, asked, m)
    requires forall j :: 0 <= j < |asked| - 1 ==> !Successful(asked[j].answer)
    ensures m == asked[i].answer.msg
  {
  }

  /** The servers of a stored list: none until something is stored, or when the list is nil. */
  function ServersOf(upstreams: Option<Option<seq<string>>>): seq<string> {
    if upstreams.Some? && upstreams.value.Some? then upstreams.value.value else []
  }

  class Handler {
    /** The stored list: None until something is stored; a stored list may be nil. */
    var upstreams: Option<Option<seq<string>>>

    constructor ()
      ensures upstreams == None
    {
      upstreams := None;
    }

    method ServeDNS(w: ResponseWriter, client: Client, lookup: Result<seq<string>>, parse: string -> Option<Bytes>, r: Msg)
      modifies w, client
      ensures |w.written| == |old(w.written)| + 1 && w.written[..|old(w.written)|] == old(w.written)
      ensures |client.log| >= |old(client.log)| && client.log[..|old(client.log)|] == old(client.log)
      ensures var m, asked := w.written[|old(w.written)|], client.log[|old(client.log)|..];
              if SystemReply(lookup, parse, r, None)
              then AskedInOrder(ServersOf(upstreams), asked) && Chosen(r, asked, m)
              else asked == [] && SystemReply(lookup, parse, r, Some(m))
    {
      hide Declined, AskedInOrder, Chosen, SystemReply, SetReply;
      var system := ResolveViaSystem(lookup, parse, r);
      if system.Some? {
        ReplyOrNone(lookup, parse, r, system.value);
        w.WriteMsg(system.value);
        return;
      }
      var servers: seq<string> := [];
      if upstreams.Some? && upstreams.value.Some? {
        servers := upstreams.value.value;
      }
      ghost var log0, asked := client.log, [];
      var lastResp: Option<Msg> := None;
      NothingAsked(servers);
      for i := 0 to |servers|
        invariant client.log == log0 + asked && w.written == old(w.written)
        invariant Declined(servers, i, asked, lastResp)
      {
        var answer := client.ExchangeContext(r, servers[i]);
        AskNext(r, servers, i, asked, lastResp, answer);
        asked := asked + [Exchange(servers[i], answer)];
        assert client.log == log0 + asked;
        if answer.Failed? {
          continue;
        }
        if answer.NoMessage? {
          continue;
        }
        lastResp := Some(answer.msg);
        if answer.msg.rcode == RCODE_SUCCESS {
          assert client.log[|log0|..] == asked;
          w.WriteMsg(answer.msg);
          return;
        }
      }
      AllDeclined(r, servers, asked, lastResp);
      assert client.log[|log0|..] == asked;
      if lastResp.Some? {
        w.WriteMsg(lastResp.value);
        return;
      }
      w.WriteMsg(ServFail(r));
    }
  }
}
