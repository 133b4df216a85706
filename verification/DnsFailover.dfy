/** What reordering the upstream servers does to the answer a client gets. */
module DnsFailover {
  import opened DnsSame
  import opened DnsHandler

  /** How a forwarded request ends for the client. */
  datatype Class = Success | Negative | Failure

  /** The class a list of servers gives, when each server's answer depends on its address only. */
  ghost function ClassOf(servers: seq<string>, respond: string -> Answer): Class {
    if exists s :: s in servers && Successful(respond(s)) then Success
    else if exists s :: s in servers && respond(s).Got? then Negative
    else Failure
  }

  /** The exchanges had the answers that the servers give. */
  ghost predicate AnsweredBy(asked: seq<Exchange>, respond: string -> Answer) {
    forall i :: 0 <= i < |asked| ==> asked[i].answer == respond(asked[i].address)
  }

  /** The message has the class: success is visible in its code, and failure means SERVFAIL made here. */
  ghost predicate InClass(r: Msg, servers: seq<string>, respond: string -> Answer, m: Msg, c: Class) {
    match c
    case Success => m.rcode == RCODE_SUCCESS && exists s :: s in servers && respond(s) == Got(m)
    case Negative => m.rcode != RCODE_SUCCESS && exists s :: s in servers && respond(s) == Got(m)
    case Failure => m == ServFail(r) && forall s :: s in servers ==> !respond(s).Got?
  }
  /** What the failover loop hands to the client is in the class of its list of servers. */
  lemma ChosenHasClass(r: Msg, servers: seq<string>, asked: seq<Exchange>, respond: string -> Answer, m: Msg)
    requires AskedInOrder(servers, asked) && AnsweredBy(asked, respond) && Chosen(r, asked, m)
    ensures InClass(r, servers, respond, m, ClassOf(servers, respond))
  {
  }

  lemma SameMembers<T>(a: seq<T>, b: seq<T>, x: T)
    requires SameElements(a, b) && x in a
    ensures x in b
  {
    assert x in multiset(a);
  }

  lemma SameIsSymmetric<T>(a: seq<T>, b: seq<T>)
    requires SameElements(a, b)
    ensures SameElements(b, a)
  {
  }

  /** Lists with the same servers have the same class. */
  lemma SameServersSameClass(a: seq<string>, b: seq<string>, respond: string -> Answer)
    requires SameElements(a, b)
    ensures ClassOf(a, respond) == ClassOf(b, respond)
  {
    forall s | s in a ensures s in b {
      SameMembers(a, b, s);
    }
    forall s | s in b ensures s in a {
      SameMembers(b, a, s);
    }
  }

  /** A message is in the class of a list whenever it is in that of a reordering. */
  lemma ReorderedClass(r: Msg, a: seq<string>, b: seq<string>, respond: string -> Answer, m: Msg)
    requires SameElements(a, b) && InClass(r, a, respond, m, ClassOf(a, respond))
    ensures InClass(r, b, respond, m, ClassOf(b, respond))
  {
    hide ClassOf, SameElements;
    SameServersSameClass(a, b, respond);
    SameIsSymmetric(a, b);
    forall s ensures s in a <==> s in b {
      if s in a { SameMembers(a, b, s); }
      if s in b { SameMembers(b, a, s); }
    }
  }
  /** The classes in numbers: code 0 exactly when some server answers so, else some server's message, else code 2. */
  lemma ClassInNumbers(r: Msg, servers: seq<string>, respond: string -> Answer, m: Msg)
    requires InClass(r, servers, respond, m, ClassOf(servers, respond))
    ensures m.rcode == 0 <==> exists s :: s in servers && respond(s).Got? && respond(s).msg.rcode == 0
    ensures (exists s :: s in servers && respond(s).Got?) ==> exists s :: s in servers && respond(s) == Got(m)
    ensures (forall s :: s in servers ==> !respond(s).Got?) ==> m.rcode == 2 && m.id == r.id && m.response && m.answers == []
  {
  }

  /** Two lists that Same does not tell apart give a client the same kind of answer. */
  lemma ReorderedServersAgree(r: Msg, a: seq<string>, b: seq<string>, asked: seq<Exchange>, asked': seq<Exchange>,
                              respond: string -> Answer, m: Msg, m': Msg)
    requires SameElements(a, b)
    requires AskedInOrder(a, asked) && AnsweredBy(asked, respond) && Chosen(r, asked, m)
    requires AskedInOrder(b, asked') && AnsweredBy(asked', respond) && Chosen(r, asked', m')
    ensures exists c :: InClass(r, a, respond, m, c) && InClass(r, b, respond, m', c)
    ensures m.rcode == RCODE_SUCCESS <==> m'.rcode == RCODE_SUCCESS
    ensures ClassOf(a, respond) == Failure ==> m == m'
  {
    SameServersSameClass(a, b, respond);
    ChosenHasClass(r, a, asked, respond, m);
    ChosenHasClass(r, b, asked', respond, m');
  }

  // ---- When the code is kept, too ----

  /** A client that is served from the list, each server answering by its address, can get the message. */
  ghost predicate Serves(r: Msg, servers: seq<string>, respond: string -> Answer, m: Msg) {
    exists asked :: AskedInOrder(servers, asked) && AnsweredBy(asked, respond) && Chosen(r, asked, m)
  }

  /** No reordering of the list changes the code that the client gets. */
  ghost predicate CodeIsKept(r: Msg, a: seq<string>, respond: string -> Answer) {
    forall b, m, m' :: SameElements(a, b) && Serves(r, a, respond, m) && Serves(r, b, respond, m') ==> m.rcode == m'.rcode
  }

  /** All servers that return a message return the same code. */
  ghost predicate OneCode(servers: seq<string>, respond: string -> Answer) {
    forall s, t :: s in servers && t in servers && respond(s).Got? && respond(t).Got? ==> respond(s).msg.rcode == respond(t).msg.rcode
  }

  /** The exchanges when no server stops the loop. */
  ghost function AskAll(servers: seq<string>, respond: string -> Answer): (asked: seq<Exchange>)
    ensures |asked| == |servers| && AnsweredBy(asked, respond)
    ensures forall i :: 0 <= i < |servers| ==> asked[i].address == servers[i]
  {
    seq(|servers|, i requires 0 <= i < |servers| => Exchange(servers[i], respond(servers[i])))
  }

  lemma {:induction false} LastMessageExists(asked: seq<Exchange>)
    requires exists i :: 0 <= i < |asked| && asked[i].answer.Got?
    ensures exists i :: 0 <= i < |asked| && LastMessage(asked, i)
  {
    var n := |asked| - 1;
    if asked[n].answer.Got? {
      assert LastMessage(asked, n);
    } else {
      LastMessageExists(asked[..n]);
      var i :| 0 <= i < n && LastMessage(asked[..n], i);
      assert LastMessage(asked, i);
    }
  }

  lemma NegativeMeans(servers: seq<string>, respond: string -> Answer) returns (k: nat)
    requires ClassOf(servers, respond) == Negative
    ensures k < |servers| && respond(servers[k]).Got?
    ensures forall i :: 0 <= i < |servers| ==> !Successful(respond(servers[i]))
  {
    var s :| s in servers && respond(s).Got?;
    k :| 0 <= k < |servers| && servers[k] == s;
  }

  lemma LastIsServed(r: Msg, asked: seq<Exchange>, i: nat)
    requires i < |asked| && LastMessage(asked, i)
    requires forall j :: 0 <= j < |asked| ==> !Successful(asked[j].answer)
    ensures Chosen(r, asked, asked[i].answer.msg)
  {
  }

  lemma AllAsked(servers: seq<string>, asked: seq<Exchange>)
    requires |asked| == |servers| && forall i :: 0 <= i < |servers| ==> asked[i].address == servers[i]
    requires forall i :: 0 <= i < |asked| ==> !Successful(asked[i].answer)
    ensures AskedInOrder(servers, asked)
  {
  }

  /** When servers decline and none succeeds, the message of the last one that does is served. */
  lemma NegativeServes(r: Msg, servers: seq<string>, respond: string -> Answer) returns (m: Msg)
    requires ClassOf(servers, respond) == Negative
    ensures Serves(r, servers, respond, m)
    ensures var n := |servers|; n > 0 && respond(servers[n - 1]).Got? ==> m == respond(servers[n - 1]).msg
  {
    hide ClassOf, Successful, Chosen, AskedInOrder;
    var asked := AskAll(servers, respond);
    var k := NegativeMeans(servers, respond);
    assert asked[k].answer.Got?;
    assert forall i :: 0 <= i < |asked| ==> asked[i].answer == respond(servers[i]);
    LastMessageExists(asked);
    var i: nat :| i < |asked| && LastMessage(asked, i);
    m := asked[i].answer.msg;
    AllAsked(servers, asked);
    LastIsServed(r, asked, i);
  }

  /** Any server of the list can be put last. */
  lemma PutLast<T>(a: seq<T>, x: T) returns (b: seq<T>)
    requires x in a
    ensures SameElements(a, b) && b != [] && b[|b| - 1] == x
  {
    var i :| 0 <= i < |a| && a[i] == x;
    b := a[..i] + a[i + 1..] + [x];
    assert a == a[..i] + [x] + a[i + 1..];
  }

  /** If the code is kept, each server that returns a message returns the code that the client gets. */
  lemma LastDecides(r: Msg, a: seq<string>, respond: string -> Answer, m: Msg, s: string)
    requires CodeIsKept(r, a, respond) && ClassOf(a, respond) == Negative
    requires Serves(r, a, respond, m) && s in a && respond(s).Got?
    ensures respond(s).msg.rcode == m.rcode
  {
    var b := PutLast(a, s);
    SameServersSameClass(a, b, respond);
    var m' := NegativeServes(r, b, respond);
    assert m' == respond(s).msg;
  }

  lemma ServedHasClass(r: Msg, servers: seq<string>, respond: string -> Answer, m: Msg)
    requires Serves(r, servers, respond, m)
    ensures InClass(r, servers, respond, m, ClassOf(servers, respond))
  {
    var asked :| AskedInOrder(servers, asked) && AnsweredBy(asked, respond) && Chosen(r, asked, m);
    ChosenHasClass(r, servers, asked, respond, m);
  }

  /**
   Exactly when reordering keeps the code, for every list and every way the servers answer: unless
   some servers decline and none succeeds, or if all that return a message return the same code.
   */
  lemma CodeIsKeptExactly(r: Msg, a: seq<string>, respond: string -> Answer)
    ensures CodeIsKept(r, a, respond) <==> ClassOf(a, respond) != Negative || OneCode(a, respond)
  {
    if ClassOf(a, respond) != Negative || OneCode(a, respond) {
      forall b, m, m' | SameElements(a, b) && Serves(r, a, respond, m) && Serves(r, b, respond, m') ensures m.rcode == m'.rcode {
        ServedHasClass(r, a, respond, m);
        ServedHasClass(r, b, respond, m');
        SameServersSameClass(a, b, respond);
        if ClassOf(a, respond) == Negative {
          var s :| s in a && respond(s) == Got(m);
          var t :| t in b && respond(t) == Got(m');
          SameMembers(b, a, t);
        }
      }
    } else if CodeIsKept(r, a, respond) {
      var m := NegativeServes(r, a, respond);
      forall s, t | s in a && t in a && respond(s).Got? && respond(t).Got?
        ensures respond(s).msg.rcode == respond(t).msg.rcode
      {
        LastDecides(r, a, respond, m, s);
        LastDecides(r, a, respond, m, t);
      }
    }
  }

  /** The shortest list for which it does not: of two servers that decline, the last one decides the code. */
  lemma ReorderingChangesTheCode(r: Msg, nxdomain: Msg, refused: Msg)
    requires nxdomain.rcode == 3 && refused.rcode == 5
    ensures var respond := (s: string) => if s == "a" then Got(nxdomain) else Got(refused);
            var there, back := [Exchange("a", Got(nxdomain)), Exchange("b", Got(refused))], [Exchange("b", Got(refused)), Exchange("a", Got(nxdomain))];
            && SameElements(["a", "b"], ["b", "a"])
            && AskedInOrder(["a", "b"], there) && AnsweredBy(there, respond) && Chosen(r, there, refused)
            && AskedInOrder(["b", "a"], back) && AnsweredBy(back, respond) && Chosen(r, back, nxdomain)
  {
  }
}
