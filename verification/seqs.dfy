/**
 * Generic sequence helpers shared by the parameter, text and graph modules:
 * duplicate-freedom, filtering, joining with a separator and splitting on a
 * character (the inverse of joining).
 */
module Seqs {

  /** No element occurs twice. */
  predicate Distinct<T(==)>(s: seq<T>) {
    forall i, j :: 0 <= i < j < |s| ==> s[i] != s[j]
  }

  lemma DistinctCons<T>(x: T, s: seq<T>)
    requires x !in s && Distinct(s)
    ensures Distinct([x] + s)
  {
    var t := [x] + s;
    forall i, j | 0 <= i < j < |t|
      ensures t[i] != t[j]
    {
      if i == 0 {
        assert t[j] == s[j - 1];
      } else {
        assert t[i] == s[i - 1] && t[j] == s[j - 1];
      }
    }
  }

  /** Dropping the head of a duplicate-free sequence keeps it duplicate-free,
      and the head does not occur again. */
  lemma DistinctTail<T>(s: seq<T>)
    requires |s| > 0 && Distinct(s)
    ensures Distinct(s[1..]) && s[0] !in s[1..]
    ensures forall i :: 0 <= i < |s| - 1 ==> s[1..][i] == s[i + 1]
  {
  }

  lemma DistinctSnoc<T>(s: seq<T>, x: T)
    requires x !in s && Distinct(s)
    ensures Distinct(s + [x])
  {
  }

  /** The elements of `s` that satisfy `keep`, in their original order. */
  function Filter<T(==)>(s: seq<T>, keep: T -> bool): (r: seq<T>)
    ensures forall i :: 0 <= i < |r| ==> r[i] in s && keep(r[i])
    ensures forall i :: 0 <= i < |s| && keep(s[i]) ==> s[i] in r
    ensures |r| <= |s|
    ensures (forall i :: 0 <= i < |s| ==> !keep(s[i])) ==> r == []
    ensures Distinct(s) ==> Distinct(r)
  {
    if |s| == 0 then []
    else
      var rest := Filter(s[1..], keep);
      assert forall i :: 0 <= i < |s[1..]| ==> s[1..][i] == s[i + 1];
      if keep(s[0]) then
        (if Distinct(s) then
           assert Distinct(s[1..]) && s[0] !in s[1..];
           DistinctCons(s[0], rest);
           [s[0]] + rest
         else [s[0]] + rest)
      else rest
  }

  /** When `x` is the only element of a duplicate-free `s` that satisfies
      `keep`, filtering `s` leaves exactly `[x]`. */
  lemma {:induction false} FilterSingle<T>(s: seq<T>, keep: T -> bool, x: T)
    requires Distinct(s)
    requires x in s && keep(x)
    requires forall i :: 0 <= i < |s| && keep(s[i]) ==> s[i] == x
    ensures Filter(s, keep) == [x]
  {
    var tail := s[1..];
    assert forall i :: 0 <= i < |tail| ==> tail[i] == s[i + 1];
    if s[0] == x {
      assert x !in tail;
      assert forall i :: 0 <= i < |tail| ==> !keep(tail[i]);
    } else {
      FilterSingle(tail, keep, x);
    }
  }

  /** A duplicate-free sequence has as many elements as its set. */
  lemma {:induction false} DistinctCard<T>(s: seq<T>)
    requires Distinct(s)
    ensures |set x | x in s| == |s|
  {
    if |s| > 0 {
      var tail := s[1..];
      assert Distinct(tail);
      DistinctCard(tail);
      assert s[0] !in tail;
      assert (set x | x in s) == (set x | x in tail) + {s[0]};
    }
  }

  /** `xs[0] + sep + xs[1] + sep + ...`, as Python's `sep.join(xs)`. */
  function Join(xs: seq<string>, sep: string): string {
    if |xs| == 0 then ""
    else if |xs| == 1 then xs[0]
    else xs[0] + sep + Join(xs[1..], sep)
  }

  /** The pieces of `s` between occurrences of `c`, as Python's `s.split(c)`
      for a one-character separator: the result always has at least one piece. */
  function Split(s: string, c: char): (r: seq<string>)
    ensures |r| >= 1
  {
    if |s| == 0 then [""]
    else
      var rest := Split(s[1..], c);
      if s[0] == c then [""] + rest
      else [[s[0]] + rest[0]] + rest[1..]
  }

  /** Splitting a piece free of `c`, followed by `c` and more text, yields that
      piece first and the split of the remainder after it. */
  lemma {:induction false} SplitAfterPiece(x: string, c: char, y: string)
    requires c !in x
    ensures Split(x + [c] + y, c) == [x] + Split(y, c)
  {
    if |x| == 0 {
      assert x + [c] + y == [c] + y;
      assert ([c] + y)[1..] == y;
    } else {
      SplitAfterPiece(x[1..], c, y);
      assert (x + [c] + y)[1..] == x[1..] + [c] + y;
      assert [x[0]] + x[1..] == x;
    }
  }

  /** A piece free of `c` splits into itself. */
  lemma {:induction false} SplitWhole(x: string, c: char)
    requires c !in x
    ensures Split(x, c) == [x]
  {
    if |x| > 0 {
      SplitWhole(x[1..], c);
      assert [x[0]] + x[1..] == x;
    }
  }

  /** Joining pieces that contain no `c` with the separator `c` and splitting
      the result on `c` gives the pieces back. */
  lemma {:induction false} SplitJoin(xs: seq<string>, c: char)
    requires |xs| >= 1
    requires forall i :: 0 <= i < |xs| ==> c !in xs[i]
    ensures Split(Join(xs, [c]), c) == xs
  {
    if |xs| == 1 {
      SplitWhole(xs[0], c);
    } else {
      SplitJoin(xs[1..], c);
      SplitAfterPiece(xs[0], c, Join(xs[1..], [c]));
      assert [xs[0]] + xs[1..] == xs;
    }
  }
}
