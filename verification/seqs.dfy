/** Sequence helpers: duplicate-freedom and Python's `list.remove` / `deque.remove`. */
module Seqs {

  /** No element occurs twice in `s`. */
  ghost predicate NoDup<T>(s: seq<T>) {
    forall x :: x in s ==> multiset(s)[x] <= 1
  }

  /** The position of the first occurrence of `x` in `s`. */
  function IndexOf<T(==)>(s: seq<T>, x: T): (k: nat)
    requires x in s
    ensures k < |s| && s[k] == x && x !in s[..k]
  {
    if s[0] == x then 0
    else
      var k := IndexOf(s[1..], x);
      assert s[..k + 1] == [s[0]] + s[1..][..k];
      k + 1
  }

  /** Python's `list.remove(x)` when `x` is present: drop the FIRST occurrence of `x`, keeping the rest in order. */
  function RemoveFirst<T(==)>(s: seq<T>, x: T): (r: seq<T>)
    requires x in s
    ensures r == s[..IndexOf(s, x)] + s[IndexOf(s, x) + 1..]
    ensures multiset(r) == multiset(s) - multiset{x}
    ensures |r| == |s| - 1
    ensures forall y :: y in r ==> y in s
    ensures forall y :: y in s && y != x ==> y in r
  {
    RemoveAt(s, IndexOf(s, x));
    DropFirst(s, x)
  }

  /** The scan `list.remove` performs: walk to the first `x` and leave it out. */
  function DropFirst<T(==)>(s: seq<T>, x: T): (r: seq<T>)
    requires x in s
    ensures r == s[..IndexOf(s, x)] + s[IndexOf(s, x) + 1..]
  {
    if s[0] == x then s[1..]
    else
      var t := s[1..];
      var k := IndexOf(t, x);
      var r' := DropFirst(t, x);
      assert IndexOf(s, x) == k + 1;
      assert s[..k + 1] == [s[0]] + t[..k];
      assert s[k + 2..] == t[k + 1..];
      assert [s[0]] + r' == [s[0]] + (t[..k] + t[k + 1..]);
      [s[0]] + r'
  }

  /** Cutting out position `k` removes one copy of `s[k]` and no other element. */
  lemma RemoveAt<T>(s: seq<T>, k: nat)
    requires k < |s|
    ensures var r := s[..k] + s[k + 1..];
      && multiset(r) == multiset(s) - multiset{s[k]} && |r| == |s| - 1
      && (forall y :: y in r ==> y in s)
      && (forall y :: y in s && y != s[k] ==> y in r)
  {
    var r := s[..k] + s[k + 1..];
    assert s == s[..k] + [s[k]] + s[k + 1..];
    assert multiset(s) == multiset(s[..k]) + multiset{s[k]} + multiset(s[k + 1..]);
    forall y | y in r
      ensures y in s
    {
      assert y in multiset(r);
    }
    forall y | y in s && y != s[k]
      ensures y in r
    {
      assert y in multiset(s);
    }
  }

  /** Drops `x` once if it is present, as the guarded `if x in q: q.remove(x)` does. */
  function Discard<T(==)>(s: seq<T>, x: T): (r: seq<T>)
    ensures multiset(r) == multiset(s) - multiset{x}
    ensures x !in s ==> r == s
    ensures x in s ==> r == s[..IndexOf(s, x)] + s[IndexOf(s, x) + 1..]
    ensures x in s ==> |r| == |s| - 1
  {
    if x in s then RemoveFirst(s, x) else s
  }

  /** The entries of `s` not in `xs`, in their order in `s`. */
  function Strip<T(==)>(s: seq<T>, xs: set<T>): (r: seq<T>)
    ensures |r| <= |s|
    decreases |s|
  {
    if s == [] then []
    else
      (if s[0] in xs then [] else [s[0]]) + Strip(s[1..], xs)
  }

  /** Stripping distributes over concatenation. */
  lemma {:induction false} StripConcat<T>(a: seq<T>, b: seq<T>, xs: set<T>)
    ensures Strip(a + b, xs) == Strip(a, xs) + Strip(b, xs)
    decreases |a|
  {
    if a != [] {
      assert (a + b)[1..] == a[1..] + b;
      StripConcat(a[1..], b, xs);
    } else {
      assert a + b == b;
    }
  }

  /** Stripping a set of elements is stripping one part of it after the other. */
  lemma {:induction false} StripUnion<T>(s: seq<T>, xs: set<T>, ys: set<T>)
    ensures Strip(s, xs + ys) == Strip(Strip(s, xs), ys)
    decreases |s|
  {
    if s != [] {
      StripUnion(s[1..], xs, ys);
      var h := if s[0] in xs then [] else [s[0]];
      StripConcat(h, Strip(s[1..], xs), ys);
      if s[0] !in xs {
        assert Strip(h, ys) == (if s[0] in ys then [] else [s[0]]);
      }
    }
  }

  /** Dropping a stripped element from between two parts does not change what stripping leaves. */
  lemma StripDropOne<T>(a: seq<T>, x: T, b: seq<T>, xs: set<T>)
    requires x in xs
    ensures Strip(a + ([x] + b), xs) == Strip(a + b, xs)
  {
    assert ([x] + b)[1..] == b;
    StripConcat(a, [x] + b, xs);
    StripConcat(a, b, xs);
  }

  /** Removing an element that is stripped anyway leaves the other entries, in order, as they were. */
  lemma DiscardKeepsOrder<T>(s: seq<T>, x: T, xs: set<T>)
    requires x in xs
    ensures Strip(Discard(s, x), xs) == Strip(s, xs)
  {
    if x in s {
      var k := IndexOf(s, x);
      assert s == s[..k] + ([x] + s[k + 1..]);
      StripDropOne(s[..k], x, s[k + 1..], xs);
    }
  }

  /** Two removals that each keep the order of what they leave keep it together: if `b` agrees with `a` once `x` is
      stripped, and `c` agrees with `b` once `xs` is stripped, then `c` agrees with `a` once both are. */
  lemma StripChain<T>(a: seq<T>, b: seq<T>, c: seq<T>, x: T, xs: set<T>)
    requires Strip(b, {x}) == Strip(a, {x})
    requires Strip(c, xs) == Strip(b, xs)
    ensures Strip(c, {x} + xs) == Strip(a, {x} + xs)
  {
    assert {x} + xs == xs + {x};
    StripUnion(c, xs, {x});
    StripUnion(b, xs, {x});
    StripUnion(b, {x}, xs);
    StripUnion(a, {x}, xs);
  }

  /** Removing one occurrence from a duplicate-free sequence removes the element entirely. */
  lemma DiscardAll<T>(s: seq<T>, x: T)
    requires NoDup(s)
    ensures x !in Discard(s, x)
    ensures NoDup(Discard(s, x))
  {
    var r := Discard(s, x);
    assert multiset(r)[x] == 0;
    forall y | y in r
      ensures multiset(r)[y] <= 1
    {
      assert multiset(r)[y] <= multiset(s)[y];
    }
  }

  /** A sequence is duplicate-free exactly when its head is not repeated in its duplicate-free tail. */
  lemma NoDupCons<T>(s: seq<T>)
    requires |s| > 0
    ensures NoDup(s) <==> s[0] !in s[1..] && NoDup(s[1..])
  {
    assert s == [s[0]] + s[1..];
    assert multiset(s) == multiset{s[0]} + multiset(s[1..]);
    if NoDup(s) {
      assert multiset(s)[s[0]] <= 1;
      forall x | x in s[1..]
        ensures multiset(s[1..])[x] <= 1
      {
        assert x in s;
      }
    }
    if s[0] !in s[1..] && NoDup(s[1..]) {
      forall x | x in s
        ensures multiset(s)[x] <= 1
      {
        if x != s[0] {
          assert x in s[1..];
        }
      }
    }
  }

  /** `s` counts up by one from `lo`. */
  ghost predicate Consecutive(s: seq<int>, lo: int) {
    forall i :: 0 <= i < |s| ==> s[i] == lo + i
  }

  /** No number, or just the first, is a run. */
  lemma ConsecutiveShort(s: seq<int>, lo: int)
    requires s == [] || s == [lo]
    ensures Consecutive(s, lo)
  {
  }

  /** Two runs that continue each other make one run, which has no repeats. */
  lemma ConsecutiveConcat(a: seq<int>, b: seq<int>, lo: int)
    requires Consecutive(a, lo) && Consecutive(b, lo + |a|)
    ensures Consecutive(a + b, lo) && NoDup(a + b)
  {
    ConsecutiveNoDup(a + b, lo);
  }

  /** A run of consecutive numbers has no repeats. */
  lemma {:induction false} ConsecutiveNoDup(s: seq<int>, lo: int)
    requires Consecutive(s, lo)
    ensures NoDup(s)
    decreases |s|
  {
    if s != [] {
      ConsecutiveNoDup(s[1..], lo + 1);
      NoDupCons(s);
    }
  }

  /** Appending an element that is not yet present keeps a sequence duplicate-free. */
  lemma NoDupSnoc<T>(s: seq<T>, x: T)
    requires NoDup(s) && x !in s
    ensures NoDup(s + [x])
  {
    assert multiset(s + [x]) == multiset(s) + multiset{x};
    forall y | y in s + [x]
      ensures multiset(s + [x])[y] <= 1
    {
      if y != x {
        assert y in s;
      }
    }
  }

  /** Splitting a sequence at any point and putting it back together gives the same elements. */
  lemma SplitJoin<T>(s: seq<T>, k: nat)
    requires k <= |s|
    ensures s[..k] + s[k..] == s
  {
  }
}
