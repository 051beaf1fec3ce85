/** Rearrangement in `src/Graph.ts`: a contiguous run of target tokens is
    moved to another place in the target.  Identities, texts and edges stay
    as they are, so the diff sees a move rather than a deletion followed by
    an insertion. */
module Reordering {
  import opened Seqs
  import opened Tokenizer
  import opened Identity
  import opened Graphs

  /** Where the moved run is put back into the tokens that remain once it is
      cut out, in the model's reading of `Utils.rearrange`: a destination
      beyond the run's start is shifted down by the run's length less one,
      and the result is clamped to the remaining tokens. */
  function Landing(n: nat, begin: nat, end: nat, dest: nat): (d: nat)
    requires begin <= end < n
    ensures d <= n - (end - begin + 1)
  {
    var rest := n - (end - begin + 1);
    var d: int := if dest > begin then dest - (end - begin) else dest;
    if d < 0 then 0 else if d > rest then rest else d
  }

  /** `Utils.rearrange`: cuts out `xs[begin..end]`, both ends included, and
      re-inserts it at its landing place among the remaining elements. */
  function Move<T>(xs: seq<T>, begin: nat, end: nat, dest: nat): (r: seq<T>)
    requires begin <= end < |xs|
    ensures |r| == |xs|
  {
    var rest := xs[..begin] + xs[end + 1..];
    var d := Landing(|xs|, begin, end, dest);
    rest[..d] + xs[begin..end + 1] + rest[d..]
  }

  /** The run arrives intact at its landing place, and the other elements
      keep their relative order around it. */
  lemma MoveShape<T>(xs: seq<T>, begin: nat, end: nat, dest: nat)
    requires begin <= end < |xs|
    ensures var r := Move(xs, begin, end, dest);
            var d := Landing(|xs|, begin, end, dest);
            var w := end - begin + 1;
            && r[d..d + w] == xs[begin..end + 1]
            && r[..d] + r[d + w..] == xs[..begin] + xs[end + 1..]
  {
    var rest := xs[..begin] + xs[end + 1..];
    var d := Landing(|xs|, begin, end, dest);
    var r := Move(xs, begin, end, dest);
    assert r == rest[..d] + xs[begin..end + 1] + rest[d..];
    assert r[..d] == rest[..d];
    assert r[d + (end - begin + 1)..] == rest[d..];
    assert rest[..d] + rest[d..] == rest;
  }

  /** Moving the run is a permutation. */
  lemma MovePermutation<T>(xs: seq<T>, begin: nat, end: nat, dest: nat)
    requires begin <= end < |xs|
    ensures multiset(Move(xs, begin, end, dest)) == multiset(xs)
  {
    var rest := xs[..begin] + xs[end + 1..];
    var d := Landing(|xs|, begin, end, dest);
    assert rest == rest[..d] + rest[d..];
    assert xs == xs[..begin] + xs[begin..end + 1] + xs[end + 1..];
    calc {
      multiset(Move(xs, begin, end, dest));
      multiset(rest[..d]) + multiset(xs[begin..end + 1]) + multiset(rest[d..]);
      multiset(rest) + multiset(xs[begin..end + 1]);
      multiset(xs[..begin]) + multiset(xs[end + 1..]) + multiset(xs[begin..end + 1]);
      multiset(xs);
    }
  }

  /** Moving the run back from where it landed restores the original
      sequence: rearrangement can always be undone by another one. */
  lemma MoveUndo<T>(xs: seq<T>, begin: nat, end: nat, dest: nat)
    requires begin <= end < |xs|
    ensures var d := Landing(|xs|, begin, end, dest);
            var w := end - begin;
            var back := if begin > d then begin + w else begin;
            Move(Move(xs, begin, end, dest), d, d + w, back) == xs
  {
    var r := Move(xs, begin, end, dest);
    var d := Landing(|xs|, begin, end, dest);
    var w := end - begin;
    var back := if begin > d then begin + w else begin;
    MoveShape(xs, begin, end, dest);
    assert Landing(|xs|, d, d + w, back) == begin;
    var rest := r[..d] + r[d + w + 1..];
    assert rest == xs[..begin] + xs[end + 1..];
    assert rest[..begin] == xs[..begin];
    assert rest[begin..] == xs[end + 1..];
    assert xs == xs[..begin] + xs[begin..end + 1] + xs[end + 1..];
  }

  /** `rearrange`: only the order of the target changes. */
  function Rearrange(g: Graph, begin: nat, end: nat, dest: nat): (r: Graph)
    requires begin <= end < |g.target|
    ensures r.source == g.source && r.edges == g.edges
    ensures multiset(r.target) == multiset(g.target)
  {
    MovePermutation(g.target, begin, end, dest);
    g.(target := Move(g.target, begin, end, dest))
  }

  /** Where the element at position `k` of the result comes from. */
  function Origin(n: nat, begin: nat, end: nat, dest: nat, k: nat): (i: nat)
    requires begin <= end < n && k < n
    ensures i < n
  {
    var d := Landing(n, begin, end, dest);
    var w := end - begin + 1;
    if k < d then (if k < begin then k else k + w)
    else if k < d + w then begin + (k - d)
    else if k - w < begin then k - w else k
  }

  lemma MoveAt<T>(xs: seq<T>, begin: nat, end: nat, dest: nat, k: nat)
    requires begin <= end < |xs| && k < |xs|
    ensures Move(xs, begin, end, dest)[k] == xs[Origin(|xs|, begin, end, dest, k)]
  {
  }

  /** Moving commutes with taking ids and texts. */
  lemma MoveProject(ts: seq<Token>, begin: nat, end: nat, dest: nat)
    requires begin <= end < |ts|
    ensures Ids(Move(ts, begin, end, dest)) == Move(Ids(ts), begin, end, dest)
    ensures Texts(Move(ts, begin, end, dest)) == Move(Texts(ts), begin, end, dest)
  {
    var rest := ts[..begin] + ts[end + 1..];
    var d := Landing(|ts|, begin, end, dest);
    var m := Move(ts, begin, end, dest);
    forall k | 0 <= k < |m| ensures m[k].id == Move(Ids(ts), begin, end, dest)[k] {
      MoveAt(ts, begin, end, dest, k);
      MoveAt(Ids(ts), begin, end, dest, k);
    }
    forall k | 0 <= k < |m| ensures m[k].text == Move(Texts(ts), begin, end, dest)[k] {
      MoveAt(ts, begin, end, dest, k);
      MoveAt(Texts(ts), begin, end, dest, k);
    }
  }

  /** A permutation of tokens that all end in whitespace is well-shaped. */
  lemma ClosedPermutation(a: seq<string>, b: seq<string>)
    requires multiset(a) == multiset(b) && Closed(a)
    ensures Closed(b) && Shaped(b)
  {
    forall i | 0 <= i < |b| ensures IsToken(b[i], false) {
      assert b[i] in multiset(b);
      assert b[i] in a;
    }
  }

  /** `rearrange` keeps `check_invariant` and edge coverage, provided every
      target token ends in whitespace (otherwise the final token could be
      moved into the middle without its trailing whitespace). */
  lemma RearrangeInvariant(g: Graph, begin: nat, end: nat, dest: nat)
    requires begin <= end < |g.target|
    requires Invariant(g) && Closed(Texts(g.target))
    ensures var r := Rearrange(g, begin, end, dest);
            && Invariant(r)
            && (Sided(g) ==> Sided(r))
            && (Covered(g) ==> Covered(r))
  {
    var r := Rearrange(g, begin, end, dest);
    var T := g.target;
    MoveProject(T, begin, end, dest);
    MovePermutation(Ids(T), begin, end, dest);
    MovePermutation(Texts(T), begin, end, dest);
    ClosedPermutation(Texts(T), Texts(r.target));
    IdsAppend(g.source, T);
    IdsAppend(g.source, r.target);
    assert multiset(Ids(g.source + r.target)) == multiset(Ids(g.source + T));
    DistinctPermutation(Ids(g.source + T), Ids(g.source + r.target));
    forall id ensures id in Ids(g.source + r.target) <==> id in Ids(g.source + T) {
      assert id in multiset(Ids(g.source + r.target)) <==> id in multiset(Ids(g.source + T));
    }
    if Sided(g) {
      forall i | 0 <= i < |r.target| ensures r.target[i].id.side == Target {
        assert r.target[i] in multiset(r.target);
        assert r.target[i] in T;
      }
    }
  }

  /** The example of the documentation: moving the second and third of four
      tokens to the front. */
  lemma RearrangeExample(g: Graph)
    requires Texts(g.target) == ["apa ", "bepa ", "cepa ", "depa"]
    ensures TargetText(Rearrange(g, 1, 2, 0)) == "bepa cepa apa depa"
  {
    MoveProject(g.target, 1, 2, 0);
    assert Move(Texts(g.target), 1, 2, 0) == ["bepa ", "cepa ", "apa ", "depa"];
    ExampleText();
  }

  lemma ExampleText()
    ensures Concat(["bepa ", "cepa ", "apa ", "depa"]) == "bepa cepa apa depa"
  {
    var m := ["bepa ", "cepa ", "apa ", "depa"];
    assert Concat(m[3..]) == "depa";
    assert Concat(m[2..]) == "apa depa";
    assert Concat(m[1..]) == "cepa apa depa";
  }

  /** Without trailing whitespace on every target token the invariant can
      break: the final token of a target `['apa ', 'bepa']` moved to the
      front. */
  lemma RearrangeNeedsClosed(g: Graph)
    requires Invariant(g) && Texts(g.target) == ["apa ", "bepa"]
    ensures !Invariant(Rearrange(g, 1, 1, 0))
  {
    MoveProject(g.target, 1, 1, 0);
    assert Move(Texts(g.target), 1, 1, 0)[0] == "bepa";
    assert !IsToken("bepa", false);
  }
}
