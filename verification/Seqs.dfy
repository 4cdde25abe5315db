/** Option, and filtering of sequences from the back, which suits append-only tables. */
module Seqs {

  datatype Option<+T> = None | Some(value: T)

  /** The elements of `s` that satisfy `p`, in order. */
  function Filter<T>(p: T -> bool, s: seq<T>): seq<T> {
    if s == [] then [] else
      var front := Filter(p, s[..|s| - 1]);
      if p(s[|s| - 1]) then front + [s[|s| - 1]] else front
  }

  /** A filter keeps only elements of its input, and only those that satisfy the predicate. */
  lemma {:induction false} FilterSound<T>(p: T -> bool, s: seq<T>)
    ensures |Filter(p, s)| <= |s|
    ensures forall x :: x in Filter(p, s) ==> x in s && p(x)
  {
    if s != [] {
      FilterSound(p, s[..|s| - 1]);
    }
  }

  lemma FilterSnoc<T>(p: T -> bool, s: seq<T>, x: T)
    ensures Filter(p, s + [x]) == if p(x) then Filter(p, s) + [x] else Filter(p, s)
  {
    assert (s + [x])[..|s|] == s;
  }

  lemma {:induction false} FilterConcat<T>(p: T -> bool, a: seq<T>, b: seq<T>)
    ensures Filter(p, a + b) == Filter(p, a) + Filter(p, b)
  {
    if b == [] {
      assert a + b == a;
    } else {
      var m := |b| - 1;
      var all, x := a + b, b[m];
      FilterConcat(p, a, b[..m]);
      assert all[..|all| - 1] == a + b[..m] && all[|all| - 1] == x;
      var left, right := Filter(p, a), Filter(p, b[..m]);
      assert Filter(p, all) == if p(x) then (left + right) + [x] else left + right;
      assert (left + right) + [x] == left + (right + [x]);
    }
  }

  lemma FilterCons<T>(p: T -> bool, x: T, s: seq<T>)
    ensures Filter(p, [x] + s) == (if p(x) then [x] else []) + Filter(p, s)
  {
    FilterConcat(p, [x], s);
    assert [x][..0] == [];
  }

  lemma {:induction false} FilterAll<T>(p: T -> bool, s: seq<T>)
    requires forall x :: x in s ==> p(x)
    ensures Filter(p, s) == s
  {
    if s != [] {
      FilterAll(p, s[..|s| - 1]);
      assert s == s[..|s| - 1] + [s[|s| - 1]];
    }
  }

  lemma {:induction false} FilterNone<T>(p: T -> bool, s: seq<T>)
    requires forall x :: x in s ==> !p(x)
    ensures Filter(p, s) == []
  {
    if s != [] {
      FilterNone(p, s[..|s| - 1]);
    }
  }

  lemma {:induction false} FilterComplete<T>(p: T -> bool, s: seq<T>, x: T)
    requires x in s && p(x)
    ensures x in Filter(p, s)
  {
    var m := |s| - 1;
    if s[m] != x {
      assert s == s[..m] + [s[m]];
      FilterComplete(p, s[..m], x);
    }
  }

  lemma {:induction false} EmptyFilter<T>(p: T -> bool, s: seq<T>)
    requires Filter(p, s) == []
    ensures forall x :: x in s ==> !p(x)
  {
    if s != [] {
      EmptyFilter(p, s[..|s| - 1]);
      assert s == s[..|s| - 1] + [s[|s| - 1]];
    }
  }

  /** Filtering twice by `p` and `q` is filtering once by `r` when `r` is their conjunction. */
  lemma {:induction false} FilterTwice<T>(p: T -> bool, q: T -> bool, r: T -> bool, s: seq<T>)
    requires forall x :: x in s ==> (r(x) <==> p(x) && q(x))
    ensures Filter(q, Filter(p, s)) == Filter(r, s)
  {
    if s != [] {
      var m := |s| - 1;
      FilterTwice(p, q, r, s[..m]);
      FilterSnoc(q, Filter(p, s[..m]), s[m]);
    }
  }

  /** How many elements satisfy `p`. */
  function Count<T>(p: T -> bool, s: seq<T>): nat { |Filter(p, s)| }

  /** Replacing one element moves the count by what that element contributed. */
  lemma CountReplaced<T>(p: T -> bool, s: seq<T>, i: nat, x: T)
    requires i < |s|
    ensures Count(p, s[i := x]) + (if p(s[i]) then 1 else 0) == Count(p, s) + if p(x) then 1 else 0
  {
    assert s == (s[..i] + [s[i]]) + s[i + 1..];
    assert s[i := x] == (s[..i] + [x]) + s[i + 1..];
    FilterConcat(p, s[..i] + [s[i]], s[i + 1..]);
    FilterConcat(p, s[..i] + [x], s[i + 1..]);
    FilterSnoc(p, s[..i], s[i]);
    FilterSnoc(p, s[..i], x);
  }
}
