/** Facts about sequences used as enumerations of a set: Python iterates a `set`
    and a `dict` in some order that visits every element exactly once. */
module Seqs {

  /** No element occurs twice. */
  ghost predicate Distinct<T>(xs: seq<T>) {
    forall i, j :: 0 <= i < j < |xs| ==> xs[i] != xs[j]
  }

  /** `xs` visits every element of `s` exactly once and nothing else. */
  ghost predicate IsEnumeration<T(!new)>(xs: seq<T>, s: set<T>) {
    && Distinct(xs)
    && (forall x :: x in xs <==> x in s)
  }

  /** Number of occurrences of `x` in `xs`. */
  function Count<T(==)>(xs: seq<T>, x: T): (n: nat) {
    if xs == [] then 0
    else (if xs[0] == x then 1 else 0) + Count(xs[1..], x)
  }

  /** In a sequence without repetitions every element is counted once. */
  lemma {:induction false} DistinctCount<T>(xs: seq<T>, x: T)
    requires Distinct(xs)
    ensures Count(xs, x) == if x in xs then 1 else 0
  {
    if xs != [] {
      assert Distinct(xs[1..]) by {
        forall i, j | 0 <= i < j < |xs[1..]| ensures xs[1..][i] != xs[1..][j] {
          assert xs[1..][i] == xs[i + 1] && xs[1..][j] == xs[j + 1];
        }
      }
      DistinctCount(xs[1..], x);
      if xs[0] == x {
        assert x !in xs[1..] by {
          forall k | 0 <= k < |xs[1..]| ensures xs[1..][k] != x {
            assert xs[1..][k] == xs[k + 1];
          }
        }
      } else {
        assert (x in xs) == (x in xs[1..]) by {
          if x in xs {
            var k :| 0 <= k < |xs| && xs[k] == x;
            assert k > 0 && xs[1..][k - 1] == x;
          }
        }
      }
    }
  }

  /** Removes repetitions, keeping the last occurrence of each element. */
  function Dedup<T(==,!new)>(xs: seq<T>): (r: seq<T>)
    ensures Distinct(r)
    ensures forall x :: x in r <==> x in xs
  {
    if xs == [] then []
    else if xs[0] in xs[1..] then Dedup(xs[1..])
    else
      var rest := Dedup(xs[1..]);
      assert forall k :: 0 <= k < |rest| ==> rest[k] != xs[0];
      [xs[0]] + rest
  }
}
