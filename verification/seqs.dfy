/** Sequence helpers shared by the registries: the source's std::vector plus std::find / erase. */
module Seqs {

  /** No element occurs twice. */
  ghost predicate NoDups<T>(xs: seq<T>)
  {
    forall i, j :: 0 <= i < j < |xs| ==> xs[i] != xs[j]
  }

  /** Index of the first occurrence of x, as std::find returns it. */
  function IndexOf<T(==)>(xs: seq<T>, x: T): (k: nat)
    requires x in xs
    ensures k < |xs| && xs[k] == x
    ensures forall i :: 0 <= i < k ==> xs[i] != x
  {
    if xs[0] == x then 0 else 1 + IndexOf(xs[1..], x)
  }

  /** vector::erase(std::find(...)) when found, no change otherwise. */
  function RemoveFirst<T(==)>(xs: seq<T>, x: T): (r: seq<T>)
    ensures x !in xs ==> r == xs
    ensures x in xs ==> |r| == |xs| - 1
    ensures x in xs ==> forall i :: 0 <= i < IndexOf(xs, x) ==> r[i] == xs[i]
    ensures x in xs ==> forall i :: IndexOf(xs, x) <= i < |r| ==> r[i] == xs[i + 1]
  {
    if x in xs then xs[..IndexOf(xs, x)] + xs[IndexOf(xs, x) + 1..] else xs
  }

  /** Removing an element just appended to a sequence that lacked it gives the sequence back. */
  lemma RemoveFirstAppended<T>(xs: seq<T>, x: T)
    requires x !in xs
    ensures RemoveFirst(xs + [x], x) == xs
  {
    var ys := xs + [x];
    assert ys[|xs|] == x;
    assert IndexOf(ys, x) == |xs|;
    assert ys[..|xs|] == xs;
  }

  /** Removing the first occurrence takes away exactly one copy of x, when there is one. */
  lemma RemoveFirstMultiset<T>(xs: seq<T>, x: T)
    ensures multiset(RemoveFirst(xs, x)) == multiset(xs) - multiset{x}
  {
    if x in xs {
      var k := IndexOf(xs, x);
      assert xs == xs[..k] + [x] + xs[k + 1..];
      assert multiset(xs) == multiset(xs[..k]) + multiset{x} + multiset(xs[k + 1..]);
    } else {
      assert multiset(xs)[x] == 0;
    }
  }

  /** Removing from a duplicate-free sequence drops exactly that element and keeps the rest. */
  lemma RemoveFirstNoDups<T>(xs: seq<T>, x: T)
    requires NoDups(xs)
    ensures NoDups(RemoveFirst(xs, x))
    ensures x !in RemoveFirst(xs, x)
    ensures forall y :: y != x ==> (y in RemoveFirst(xs, x) <==> y in xs)
  {
    if x in xs {
      var k := IndexOf(xs, x);
      var r := RemoveFirst(xs, x);
      assert r == xs[..k] + xs[k + 1..];
      assert forall i :: 0 <= i < |r| ==> r[i] == (if i < k then xs[i] else xs[i + 1]);
      forall y | y in xs && y != x
        ensures y in r
      {
        var i :| 0 <= i < |xs| && xs[i] == y;
        if i < k {
          assert r[i] == y;
        } else {
          assert i != k;
          assert r[i - 1] == y;
        }
      }
    }
  }

  /** Appending an absent element keeps a sequence duplicate-free. */
  lemma AppendNoDups<T>(xs: seq<T>, x: T)
    requires NoDups(xs) && x !in xs
    ensures NoDups(xs + [x])
  {
    var r := xs + [x];
    forall i, j | 0 <= i < j < |r|
      ensures r[i] != r[j]
    {
      if j == |xs| {
        assert r[i] in xs;
      }
    }
  }
}
