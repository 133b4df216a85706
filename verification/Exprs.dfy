/**
 The expressions of an nftables rule and the comparison that AddRules uses to
 recognise a rule that is already installed.
 */
module Exprs {

  import opened Wrappers

  datatype MetaKey = IifName | OifName | OtherKey(code: nat)

  datatype CmpOp = CmpEq | CmpNeq | CmpLt | CmpLte | CmpGt | CmpGte

  datatype VerdictKind = Accept | Drop | Return | Jump | Goto | OtherKind(code: nat)

  datatype HeaderBase = LinkHeader | NetworkHeader | TransportHeader

  /**
   One expression. The comparison looks at some of the fields only: it skips the
   transfer direction of Meta and Payload, the direction of Ct and the options of Masq.
   Other stands for every expression kind the comparison does not know.
   */
  datatype Expr =
    | Meta(key: MetaKey, register: nat, sourceRegister: bool)
    | Cmp(op: CmpOp, register: nat, data: Bytes)
    | Ct(ctKey: nat, register: nat, sourceRegister: bool, direction: nat)
    | Bitwise(source: nat, dest: nat, len: nat, mask: Bytes, xor: Bytes)
    | Verdict(kind: VerdictKind, chain: string)
    | Masq(options: nat)
    | Payload(dest: nat, base: HeaderBase, offset: nat, len: nat, write: bool)
    | Other(code: nat)

  /** exprEqual: field by field on seven kinds, false on every other kind. */
  predicate ExprEqual(a: Expr, b: Expr) {
    match (a, b)
    case (Meta(k, r, _), Meta(k', r', _)) => k == k' && r == r'
    case (Cmp(op, r, d), Cmp(op', r', d')) => op == op' && r == r' && d == d'
    case (Ct(k, r, s, _), Ct(k', r', s', _)) => r == r' && k == k' && s == s'
    case (Bitwise(s, d, l, m, x), Bitwise(s', d', l', m', x')) =>
      d == d' && s == s' && l == l' && m == m' && x == x'
    case (Verdict(k, c), Verdict(k', c')) => k == k' && c == c'
    case (Masq(_), Masq(_)) => true
    case (Payload(d, b, o, l, _), Payload(d', b', o', l', _)) => d == d' && b == b' && o == o' && l == l'
    case _ => false
  }

  /** What equalExprs decides: same length and pairwise equal expressions. */
  ghost predicate EqualExprs(a: seq<Expr>, b: seq<Expr>) {
    |a| == |b| && forall i :: 0 <= i < |a| ==> ExprEqual(a[i], b[i])
  }

  /** The comparison loop of equalExprs. */
  method CompareExprs(a: seq<Expr>, b: seq<Expr>) returns (equal: bool)
    ensures equal <==> EqualExprs(a, b)
  {
    if |a| != |b| {
      return false;
    }
    for i := 0 to |a|
      invariant forall j :: 0 <= j < i ==> ExprEqual(a[j], b[j])
    {
      if !ExprEqual(a[i], b[i]) {
        return false;
      }
    }
    return true;
  }

  /** A program built from the seven kinds the comparison knows. */
  ghost predicate Supported(es: seq<Expr>) {
    forall i :: 0 <= i < |es| ==> !es[i].Other?
  }

  /**
   equalExprs is an equivalence exactly on the supported programs: it is always symmetric and
   transitive, and a program equals itself if and only if it is supported.
   */
  lemma EqualExprsIsEquivalence(a: seq<Expr>, b: seq<Expr>, c: seq<Expr>)
    ensures EqualExprs(a, a) <==> Supported(a)
    ensures EqualExprs(a, b) ==> EqualExprs(b, a)
    ensures EqualExprs(a, b) && EqualExprs(b, c) ==> EqualExprs(a, c)
  {
    forall e: Expr ensures ExprEqual(e, e) <==> !e.Other? {}
    if EqualExprs(a, a) {
      forall i | 0 <= i < |a| ensures !a[i].Other? { assert ExprEqual(a[i], a[i]); }
    }
    if EqualExprs(a, b) && EqualExprs(b, c) {
      forall i | 0 <= i < |a| ensures ExprEqual(a[i], c[i]) {
        assert ExprEqual(a[i], b[i]) && ExprEqual(b[i], c[i]);
      }
    }
  }

  /** An expression with the fields that the comparison skips set to fixed values. */
  function Erased(e: Expr): Expr {
    match e
    case Meta(k, r, _) => Meta(k, r, false)
    case Ct(k, r, s, _) => Ct(k, r, s, 0)
    case Masq(_) => Masq(0)
    case Payload(d, b, o, l, _) => Payload(d, b, o, l, false)
    case _ => e
  }

  /** The comparison tells two expressions of a known kind apart by every field but the skipped ones. */
  lemma ExprEqualExactly(a: Expr, b: Expr)
    ensures ExprEqual(a, b) <==> !a.Other? && Erased(a) == Erased(b)
  {
  }
}
