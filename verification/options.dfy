/** Optional values: a nullable field or an absent member of the source's records. */
module Options {
  datatype Option<+T> = None | Some(value: T)
}

/** Permutations of lists without repeated elements. */
module Distinctness {
  ghost predicate Distinct<T(!new)>(s: seq<T>) {
    forall i, j :: 0 <= i < j < |s| ==> s[i] != s[j]
  }

  lemma {:induction false} Twice<T(!new)>(s: seq<T>, i: nat, j: nat)
    requires i < j < |s| && s[i] == s[j]
    ensures multiset(s)[s[i]] >= 2
  {
    assert s == s[..j] + s[j..];
    assert s[i] in s[..j] && s[i] in s[j..];
    assert multiset(s) == multiset(s[..j]) + multiset(s[j..]);
  }

  lemma {:induction false} Once<T(!new)>(s: seq<T>, x: T)
    requires Distinct(s)
    ensures multiset(s)[x] <= 1
  {
    if s != [] {
      var front := s[..|s|-1];
      assert s == front + [s[|s|-1]];
      Once(front, x);
      if x == s[|s|-1] {
        assert forall i :: 0 <= i < |front| ==> front[i] != x;
        assert x !in multiset(front);
      }
    }
  }

  lemma {:induction false} PermutationDistinct<T(!new)>(a: seq<T>, b: seq<T>)
    requires Distinct(a) && multiset(a) == multiset(b)
    ensures Distinct(b)
    ensures forall x :: x in a <==> x in b
  {
    forall x ensures x in a <==> x in b {
      assert x in a <==> x in multiset(a);
      assert x in b <==> x in multiset(b);
    }
    forall i, j | 0 <= i < j < |b| ensures b[i] != b[j] {
      Once(a, b[i]);
      if b[i] == b[j] { Twice(b, i, j); }
    }
  }
}
