/** Generic sequence helpers shared by the graph model: optional and
    failure-carrying results, duplicate-freedom, and the insertion-ordered
    set that JavaScript's `Set` provides. */
module Seqs {

  datatype Option<T> = None | Some(value: T)

  datatype Result<T, E> = Success(value: T) | Failure(error: E)

  /** No element occurs twice. */
  predicate Distinct<T(==)>(xs: seq<T>) {
    forall i, j | 0 <= i < j < |xs| :: xs[i] != xs[j]
  }

  lemma DistinctAppend<T>(a: seq<T>, b: seq<T>)
    ensures Distinct(a + b) <==>
              Distinct(a) && Distinct(b) && forall x | x in a :: x !in b
  {
    var ab := a + b;
    if Distinct(a) && Distinct(b) && forall x | x in a :: x !in b {
      forall i, j | 0 <= i < j < |ab| ensures ab[i] != ab[j] {
        if j < |a| {
        } else if i >= |a| {
          assert ab[i] == b[i - |a|] && ab[j] == b[j - |a|];
        } else {
          assert ab[i] in a && ab[j] == b[j - |a|];
        }
      }
    }
    if Distinct(ab) {
      forall i, j | 0 <= i < j < |b| ensures b[i] != b[j] {
        assert b[i] == ab[i + |a|] && b[j] == ab[j + |a|];
      }
      assert a == ab[..|a|];
    }
  }

  /** `Set.add` on an insertion-ordered set kept as a sequence. */
  function Insert<T(==,!new)>(acc: seq<T>, x: T): (r: seq<T>)
    ensures x in r
    ensures forall y :: y in r <==> y in acc || y == x
  {
    if x in acc then acc else acc + [x]
  }

  /** Adds every element of `xs`, in order, to the insertion-ordered set
      `acc`: what repeated `Set.add` calls leave behind. */
  function AddAll<T(==,!new)>(acc: seq<T>, xs: seq<T>): (r: seq<T>)
    ensures forall y :: y in r <==> y in acc || y in xs
    ensures |acc| <= |r| && r[..|acc|] == acc
    ensures Distinct(acc) ==> Distinct(r)
    decreases |xs|
  {
    if xs == [] then acc
    else
      var acc' := Insert(acc, xs[0]);
      assert Distinct(acc) ==> Distinct(acc') by {
        if Distinct(acc) && xs[0] !in acc {
          DistinctAppend(acc, [xs[0]]);
        }
      }
      var r := AddAll(acc', xs[1..]);
      assert forall y :: y in xs <==> y == xs[0] || y in xs[1..] by {
        assert xs == [xs[0]] + xs[1..];
      }
      assert r[..|acc|] == r[..|acc'|][..|acc|];
      r
  }

  /** Adding distinct elements none of which is present yet appends them
      in their order. */
  lemma {:induction false} AddAllFresh<T(!new)>(acc: seq<T>, xs: seq<T>)
    requires Distinct(xs) && forall k | 0 <= k < |xs| :: xs[k] !in acc
    ensures AddAll(acc, xs) == acc + xs
    decreases |xs|
  {
    if xs != [] {
      var x, rest := xs[0], xs[1..];
      assert xs == [x] + rest;
      DistinctAppend([x], rest);
      var acc' := acc + [x];
      assert Insert(acc, x) == acc';
      assert forall k | 0 <= k < |rest| :: rest[k] == xs[k + 1];
      AddAllFresh(acc', rest);
      AppendAssoc(acc, [x], rest);
    }
  }

  lemma AppendAssoc<T>(a: seq<T>, b: seq<T>, c: seq<T>)
    ensures (a + b) + c == a + (b + c)
  {
  }

  /** The first element that is in `seen` or repeats an earlier element: the
      scan `Utils.unique_check` performs while `seen` grows. */
  function FirstRepeat<T(==)>(xs: seq<T>, seen: set<T>): (r: Option<T>)
    ensures r.None? <==> Distinct(xs) && forall k | 0 <= k < |xs| :: xs[k] !in seen
    ensures r.Some? ==>
              exists k | 0 <= k < |xs| :: xs[k] == r.value && (r.value in seen || r.value in xs[..k])
    decreases |xs|
  {
    if xs == [] then None
    else if xs[0] in seen then Some(xs[0])
    else
      var r := FirstRepeat(xs[1..], seen + {xs[0]});
      assert xs == [xs[0]] + xs[1..];
      DistinctAppend([xs[0]], xs[1..]);
      if r.Some? then
        var k :| 0 <= k < |xs[1..]| && xs[1..][k] == r.value
                 && (r.value in seen + {xs[0]} || r.value in xs[1..][..k]);
        assert xs[k + 1] == r.value;
        assert xs[1..][..k] == xs[1..k + 1];
        r
      else
        r
  }

  /** Replacing the middle part of a duplicate-free sequence by new,
      duplicate-free elements absent from the rest keeps it duplicate-free. */
  lemma DistinctReplace<T>(x: seq<T>, c: seq<T>, y: seq<T>, m: seq<T>)
    requires Distinct(x + c + y) && Distinct(m)
    requires forall z | z in m :: z !in x && z !in y
    ensures Distinct(x + m + y)
  {
    DistinctAppend(x + c, y);
    DistinctAppend(x, c);
    DistinctAppend(x, m);
    DistinctAppend(x + m, y);
  }

  /** Duplicate-freedom is a property of the multiset of elements: no
      element is counted twice. */
  lemma {:induction false} DistinctCount<T>(xs: seq<T>)
    ensures Distinct(xs) <==> forall z :: multiset(xs)[z] <= 1
  {
    if xs != [] {
      var t := xs[1..];
      assert xs == [xs[0]] + t;
      DistinctCount(t);
      DistinctAppend([xs[0]], t);
      assert multiset(xs) == multiset{xs[0]} + multiset(t);
      if Distinct(xs) {
        assert multiset(t)[xs[0]] == 0;
        forall z ensures multiset(xs)[z] <= 1 {
          if z != xs[0] {
            assert multiset(xs)[z] == multiset(t)[z];
          }
        }
      }
      if forall z :: multiset(xs)[z] <= 1 {
        forall z ensures multiset(t)[z] <= 1 {
          assert multiset(t)[z] <= multiset(xs)[z];
        }
        assert multiset(xs)[xs[0]] <= 1;
        assert xs[0] !in t;
      }
    }
  }

  /** A permutation of a duplicate-free sequence is duplicate-free. */
  lemma DistinctPermutation<T>(a: seq<T>, b: seq<T>)
    requires multiset(a) == multiset(b) && Distinct(a)
    ensures Distinct(b)
  {
    DistinctCount(a);
    DistinctCount(b);
  }
}
