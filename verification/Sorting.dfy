/** `sort.Strings` on a slice, and the fact that makes sort-then-compare work:
    a multiset of strings has exactly one sorted listing. */
module Sorting {
  import opened Text

  ghost predicate Ordered(s: seq<string>) {
    forall i, j | 0 <= i < j < |s| :: LessEq(s[i], s[j])
  }

  method Swap(a: array<string>, i: nat, j: nat)
    requires i < j < a.Length
    modifies a
    ensures a[..] == old(a[..][i := a[j]][j := a[i]])
    ensures multiset(a[..]) == old(multiset(a[..]))
  {
    a[i], a[j] := a[j], a[i];
  }

  /** Sinks element `n` into the ordered prefix before it. */
  method SinkLast(a: array<string>, n: nat)
    requires n < a.Length
    requires Ordered(a[..n])
    modifies a
    ensures Ordered(a[..n + 1])
    ensures a[n + 1..] == old(a[n + 1..])
    ensures multiset(a[..]) == old(multiset(a[..]))
  {
    var j := n;
    while j > 0 && !LessEq(a[j - 1], a[j])
      invariant 0 <= j <= n
      invariant forall p, q | 0 <= p < q <= n && p != j && q != j :: LessEq(a[p], a[q])
      invariant forall q | j < q <= n :: LessEq(a[j], a[q])
      invariant a[n + 1..] == old(a[n + 1..])
      invariant multiset(a[..]) == old(multiset(a[..]))
    {
      LessEqTotal(a[j - 1], a[j]);
      ghost var before := a[..];
      Swap(a, j - 1, j);
      assert forall k | 0 <= k < a.Length && k != j && k != j - 1 :: a[k] == before[k];
      j := j - 1;
    }
    forall p | 0 <= p < j ensures LessEq(a[p], a[j]) {
      if p < j - 1 {
        LessEqTransitive(a[p], a[j - 1], a[j]);
      }
    }
  }

  method SortStrings(a: array<string>)
    modifies a
    ensures Ordered(a[..])
    ensures multiset(a[..]) == old(multiset(a[..]))
  {
    var n := 0;
    while n < a.Length
      invariant 0 <= n <= a.Length
      invariant Ordered(a[..n])
      invariant multiset(a[..]) == old(multiset(a[..]))
    {
      SinkLast(a, n);
      n := n + 1;
    }
    assert a[..n] == a[..];
  }

  /** Two ordered listings of one multiset start with the same string. */
  lemma SameHead(s: seq<string>, t: seq<string>)
    requires Ordered(s) && Ordered(t) && s != [] && t != []
    requires multiset(s) == multiset(t)
    ensures s[0] == t[0]
  {
    assert s[0] in multiset(t) && t[0] in multiset(s);
    var i :| 0 <= i < |t| && t[i] == s[0];
    var j :| 0 <= j < |s| && s[j] == t[0];
    if i != 0 && j != 0 {
      assert LessEq(t[0], t[i]) && LessEq(s[0], s[j]);
      LessEqAntisymmetric(s[0], t[0]);
    }
  }

  lemma TailOf(s: seq<string>)
    requires Ordered(s) && s != []
    ensures Ordered(s[1..]) && multiset(s) == multiset{s[0]} + multiset(s[1..])
  {
    assert s == [s[0]] + s[1..];
    assert forall i | 0 <= i < |s[1..]| :: s[1..][i] == s[i + 1];
  }

  lemma SameTail(m: multiset<string>, n: multiset<string>, x: string)
    requires multiset{x} + m == multiset{x} + n
    ensures m == n
  {
    assert m == multiset{x} + m - multiset{x};
    assert n == multiset{x} + n - multiset{x};
  }

  lemma {:induction false} OrderedListingIsUnique(s: seq<string>, t: seq<string>)
    requires Ordered(s) && Ordered(t)
    requires multiset(s) == multiset(t)
    ensures s == t
  {
    if s == [] || t == [] {
      assert |multiset(s)| == |s| && |multiset(t)| == |t|;
    } else {
      SameHead(s, t);
      TailOf(s);
      TailOf(t);
      SameTail(multiset(s[1..]), multiset(t[1..]), s[0]);
      OrderedListingIsUnique(s[1..], t[1..]);
      assert s == [s[0]] + s[1..] && t == [t[0]] + t[1..];
    }
  }
}
