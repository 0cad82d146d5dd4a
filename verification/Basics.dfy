/** What several modules share. */
module Basics {

  datatype Option<+T> = None | Some(value: T)

  predicate Distinct<T(==)>(s: seq<T>) {
    forall i, j | 0 <= i < j < |s| :: s[i] != s[j]
  }

  /** Positions in a sequence of length `n`, in increasing order. */
  predicate Positions(at: seq<nat>, n: nat) {
    && (forall i | 0 <= i < |at| :: at[i] < n)
    && (forall i, j | 0 <= i < j < |at| :: at[i] < at[j])
  }

  lemma SubsetSize<T>(a: set<T>, b: set<T>)
    requires a <= b
    ensures |a| <= |b|
  {
    assert b == a + (b - a);
  }

  ghost function Elements<T>(s: seq<T>): set<T> {
    set x | x in s
  }

  lemma {:induction false} DistinctSize<T>(s: seq<T>)
    requires Distinct(s)
    ensures |Elements(s)| == |s|
  {
    if s != [] {
      var init, last := s[..|s| - 1], s[|s| - 1];
      DistinctSize(init);
      assert s == init + [last];
      assert Elements(s) == Elements(init) + {last};
    }
  }

  /** The sequence without its element at a position. */
  function Cut<T>(s: seq<T>, i: nat): seq<T>
    requires i < |s|
  {
    s[..i] + s[i + 1..]
  }

  /** Where the element first occurs; the length when it does not. */
  function Index<T(==)>(s: seq<T>, x: T): (i: nat)
    ensures i <= |s|
  {
    if s == [] || s[0] == x then 0 else 1 + Index(s[1..], x)
  }

  lemma {:induction false} IndexIsFirst<T>(s: seq<T>, x: T)
    ensures var i := Index(s, x);
            x !in s[..i] && (i < |s| ==> s[i] == x)
  {
    if s != [] && s[0] != x {
      var i := Index(s, x);
      IndexIsFirst(s[1..], x);
      assert s[..i] == [s[0]] + s[1..][..i - 1];
    }
  }

  lemma {:induction false} IndexAfter<T>(a: seq<T>, x: T, rest: seq<T>)
    requires x !in a
    ensures Index(a + [x] + rest, x) == |a|
  {
    if a != [] {
      assert (a + [x] + rest)[1..] == a[1..] + [x] + rest;
      IndexAfter(a[1..], x, rest);
    }
  }

  lemma {:induction false} IndexJoin<T>(a: seq<T>, b: seq<T>, x: T)
    ensures Index(a + b, x) == if Index(a, x) < |a| then Index(a, x) else |a| + Index(b, x)
  {
    if a == [] {
      assert a + b == b;
    } else if a[0] != x {
      assert (a + b)[1..] == a[1..] + b;
      IndexJoin(a[1..], b, x);
    }
  }
}
