/** Comparing two lists regardless of order. */
module DnsSame {

  /** The two lists hold the same values, each equally often. */
  ghost predicate SameElements<T>(a: seq<T>, b: seq<T>) {
    multiset(a) == multiset(b)
  }

  /** What a Go map of counters holds under a key: zero when absent. */
  function Count<T(==)>(counts: map<T, int>, v: T): int {
    if v in counts then counts[v] else 0
  }

  lemma TakeOne<T>(s: seq<T>, i: nat)
    requires i < |s|
    ensures multiset(s[..i + 1]) == multiset(s[..i]) + multiset{s[i]}
  {
    assert s[..i + 1] == s[..i] + [s[i]];
  }

  /** Lists of one length are permutations of each other when one is covered by the other. */
  lemma CoveredIsSame<T>(a: seq<T>, b: seq<T>)
    requires |a| == |b| && multiset(b) <= multiset(a)
    ensures multiset(a) == multiset(b)
  {
    var rest := multiset(a) - multiset(b);
    assert multiset(a) == multiset(b) + rest;
    assert |rest| == 0;
  }

  /** The counters hold the multiplicities of a multiset. */
  ghost predicate Tracks<T(!new)>(counts: map<T, int>, m: multiset<T>) {
    forall v: T :: Count(counts, v) == m[v]
  }

  lemma CountUp<T(!new)>(counts: map<T, int>, m: multiset<T>, x: T)
    requires Tracks(counts, m)
    ensures Tracks(counts[x := Count(counts, x) + 1], m + multiset{x})
  {
  }

  lemma CountDown<T(!new)>(counts: map<T, int>, m: multiset<T>, x: T)
    requires Tracks(counts, m) && x in m
    ensures Tracks(counts[x := Count(counts, x) - 1], m - multiset{x})
  {
  }

  /** The counters hold what `a` has left once the first `i` values of `b` are taken from it. */
  ghost predicate Left<T(!new)>(counts: map<T, int>, a: seq<T>, b: seq<T>, i: nat)
    requires i <= |b|
  {
    multiset(b[..i]) <= multiset(a) && Tracks(counts, multiset(a) - multiset(b[..i]))
  }

  lemma StartCount<T(!new)>(counts: map<T, int>, a: seq<T>, i: nat)
    requires i < |a| && Tracks(counts, multiset(a[..i]))
    ensures Tracks(counts[a[i] := Count(counts, a[i]) + 1], multiset(a[..i + 1]))
  {
    TakeOne(a, i);
    CountUp(counts, multiset(a[..i]), a[i]);
  }

  /** Taking the next value of `b` either shows that the lists differ or leaves the counters right. */
  lemma UseUp<T(!new)>(counts: map<T, int>, a: seq<T>, b: seq<T>, i: nat)
    requires i < |b| && Left(counts, a, b, i)
    ensures if Count(counts, b[i]) == 0 then !SameElements(a, b) else Left(counts[b[i] := Count(counts, b[i]) - 1], a, b, i + 1)
  {
    TakeOne(b, i);
    var left := multiset(a) - multiset(b[..i]);
    assert Count(counts, b[i]) == left[b[i]];
    if b[i] !in left {
      assert b == b[..i + 1] + b[i + 1..];
      assert multiset(b)[b[i]] >= multiset(b[..i + 1])[b[i]] > multiset(a)[b[i]];
    } else {
      CountDown(counts, left, b[i]);
      assert left - multiset{b[i]} == multiset(a) - multiset(b[..i + 1]);
    }
  }

  lemma AllUsed<T(!new)>(counts: map<T, int>, a: seq<T>, b: seq<T>)
    requires |a| == |b| && Left(counts, a, b, |b|)
    ensures SameElements(a, b)
  {
    assert b[..|b|] == b;
    CoveredIsSame(a, b);
  }

  lemma NoneUsed<T(!new)>(counts: map<T, int>, a: seq<T>, b: seq<T>)
    requires Tracks(counts, multiset(a[..|a|]))
    ensures Left(counts, a, b, 0)
  {
    assert a[..|a|] == a;
  }

  lemma DifferentLength<T>(a: seq<T>, b: seq<T>)
    requires |a| != |b|
    ensures !SameElements(a, b)
  {
    assert |multiset(a)| == |a| && |multiset(b)| == |b|;
  }

  /** Same: counts the values of one list and uses the counts up with the other. */
  method Same<T(==,!new)>(a: seq<T>, b: seq<T>) returns (r: bool)
    ensures r <==> SameElements(a, b)
  {
    hide Tracks, Left, SameElements;
    if |a| != |b| {
      DifferentLength(a, b);
      return false;
    }
    var counts: map<T, int> := map[];
    NothingCounted(a);
    for i := 0 to |a|
      invariant Tracks(counts, multiset(a[..i]))
    {
      StartCount(counts, a, i);
      counts := counts[a[i] := Count(counts, a[i]) + 1];
    }
    NoneUsed(counts, a, b);
    for i := 0 to |b|
      invariant Left(counts, a, b, i)
    {
      UseUp(counts, a, b, i);
      if Count(counts, b[i]) == 0 {
        return false;
      }
      counts := counts[b[i] := Count(counts, b[i]) - 1];
    }
    AllUsed(counts, a, b);
    return true;
  }

  lemma NothingCounted<T(!new)>(a: seq<T>)
    ensures Tracks(map[], multiset(a[..0]))
  {
  }
}
