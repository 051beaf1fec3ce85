/** The two worked examples in the documentation of `calculate_diff`, in
    full: the diff of a rotated target and the diff after one token is
    replaced by two. Each is first proved for any tokens and edges of the
    right shape, then for the graph `init` builds from "apa bepa cepa ". */
module Walkthrough {
  import opened Seqs
  import opened Tokenizer
  import opened Identity
  import opened Graphs
  import opened Projector
  import opened Reordering
  import opened Diffs

  // ---------------------------------------------------------------------
  // Steps shared by both examples
  // ---------------------------------------------------------------------

  /** An alignment pairs no more tokens than it has target tokens. */
  lemma MatchesRights(cs: seq<Change>)
    ensures Matches(cs) <= |Rights(cs)|
  {
    if cs != [] {
      MatchesRights(cs[1..]);
      ChangeCons(cs[0], cs[1..]);
      assert cs == [cs[0]] + cs[1..];
    }
  }

  /** Aligning three tokens with the same three rotated left by one: the
      first source token is unmatched, the other two pair up, and the
      rotated token comes last on the target side. */
  lemma AlignRotated(a0: Tagged, a1: Tagged, a2: Tagged, b0: Tagged, b1: Tagged, b2: Tagged)
    requires a0.edge.id == b0.edge.id && a1.edge.id == b1.edge.id && a2.edge.id == b2.edge.id
    requires a0.edge.id != a1.edge.id && a1.edge.id != a2.edge.id && a0.edge.id != a2.edge.id
    ensures Align([a0, a1, a2], [b1, b2, b0]) == [OnlyA(a0), Both(a1, b1), Both(a2, b2), OnlyB(b0)]
  {
    assert Align([], [b0]) == [OnlyB(b0)] by { assert [b0][1..] == []; }
    assert Align([a2], [b2, b0]) == [Both(a2, b2), OnlyB(b0)] by { assert [a2][1..] == []; assert [b2, b0][1..] == [b0]; }
    var t := [Both(a1, b1), Both(a2, b2), OnlyB(b0)];
    assert Align([a1, a2], [b1, b2, b0]) == t by { assert [a1, a2][1..] == [a2]; assert [b1, b2, b0][1..] == [b2, b0]; }
    MatchesCons(OnlyB(b0), []);
    MatchesCons(Both(a2, b2), [OnlyB(b0)]);
    MatchesCons(Both(a1, b1), [Both(a2, b2), OnlyB(b0)]);
    MatchesCons(OnlyA(a0), t);
    var r := Align([a0, a1, a2], [b2, b0]);
    MatchesRights(r);
    AlignRights([a0, a1, a2], [b2, b0]);
    MatchesCons(OnlyB(b1), r);
    assert [a0, a1, a2][1..] == [a1, a2];
    assert [b1, b2, b0][1..] == [b2, b0];
  }

  /** Merging the steps of the rotated example: the two middle runs are
      contiguous and collapse, the first and last entries, which share an
      edge but are apart, stay. */
  lemma MergeRotated(d0: Diff, d1: Diff, d2: Diff, d3: Diff, d4: Diff, d5: Diff)
    requires d0.id == d5.id && d1.id == d2.id && d3.id == d4.id
    requires d0.id != d1.id && d1.id != d3.id && d0.id != d3.id
    ensures MergeDiff([d0, d1, d2, d3, d4, d5]) == [d0, Group([d1, d2]), Group([d3, d4]), d5]
  {
    RotatedRuns(d0, d1, d2, d3, d4, d5);
    RotatedBack([d0, d1, d2, d3, d4, d5]);
    RotatedFront([d0, d1, d2, d3, d4, d5]);
  }

  /** The last two entries the rotated stream merges into. */
  lemma RotatedBack(ds: seq<Diff>)
    requires |ds| == 6 && Run(ds, ds[3].id) == [3, 4] && !Contiguous(Run(ds, ds[5].id))
    ensures MergeFrom(ds, 3) == [Group([ds[3], ds[4]]), ds[5]]
  {
    assert MergeFrom(ds, 6) == [];
    MergeSingle(ds, 5);
    MergeRun(ds, 3, 2);
    assert ds[3..5] == [ds[3], ds[4]];
  }

  /** The first two entries the rotated stream merges into. */
  lemma RotatedFront(ds: seq<Diff>)
    requires |ds| == 6 && Run(ds, ds[1].id) == [1, 2] && !Contiguous(Run(ds, ds[0].id))
    ensures MergeFrom(ds, 0) == [ds[0], Group([ds[1], ds[2]])] + MergeFrom(ds, 3)
  {
    assert MergeFrom(ds, 0) == [ds[0]] + MergeFrom(ds, 1) by {
      MergeSingle(ds, 0);
    }
    assert MergeFrom(ds, 1) == [Group([ds[1], ds[2]])] + MergeFrom(ds, 3) by {
      MergeRun(ds, 1, 2);
      assert ds[1..3] == [ds[1], ds[2]];
    }
    ConsPair(ds[0], Group([ds[1], ds[2]]), MergeFrom(ds, 3));
  }

  lemma ConsPair<T>(a: T, b: T, t: seq<T>)
    ensures [a] + ([b] + t) == [a, b] + t
  {
  }

  /** The runs of the three edges in the rotated example. */
  lemma RotatedRuns(d0: Diff, d1: Diff, d2: Diff, d3: Diff, d4: Diff, d5: Diff)
    requires d0.id == d5.id && d1.id == d2.id && d3.id == d4.id
    requires d0.id != d1.id && d1.id != d3.id && d0.id != d3.id
    ensures Run([d0, d1, d2, d3, d4, d5], d0.id) == [0, 5]
    ensures Run([d0, d1, d2, d3, d4, d5], d1.id) == [1, 2]
    ensures Run([d0, d1, d2, d3, d4, d5], d3.id) == [3, 4]
    ensures !Contiguous(Run([d0, d1, d2, d3, d4, d5], d0.id))
  {
    var ds := [d0, d1, d2, d3, d4, d5];
    assert Run(ds, d0.id) == [0, 5] by {
      PositionsExact(ds, d0.id, 0, [0, 5]);
    }
    assert [0, 5][1] != [0, 5][0] + 1;
    assert Run(ds, d1.id) == [1, 2] by {
      PositionsExact(ds, d1.id, 0, [1, 2]);
    }
    assert Run(ds, d3.id) == [3, 4] by {
      PositionsExact(ds, d3.id, 0, [3, 4]);
    }
  }

  /** An entry whose edge's run is not contiguous is kept as it is. */
  lemma MergeSingle(ds: seq<Diff>, i: nat)
    requires i < |ds| && !Contiguous(Run(ds, ds[i].id))
    ensures MergeFrom(ds, i) == [ds[i]] + MergeFrom(ds, i + 1)
  {
  }

  /** With disjoint edges each token is tagged with the one edge listing
      its id. */
  lemma TagPairs(edges: seq<Edge>, ts: seq<Token>, owners: seq<Edge>)
    requires Disjoint(edges) && |owners| == |ts|
    requires forall k | 0 <= k < |ts| :: owners[k] in edges && ts[k].id in owners[k].ids
    ensures Owned(edges, ts)
    ensures forall k | 0 <= k < |ts| :: Tag(edges, ts)[k] == Tagged(ts[k], owners[k])
  {
    forall k | 0 <= k < |ts| ensures ts[k].id in EdgeMap(edges) && EdgeMap(edges)[ts[k].id] == owners[k] {
      var j :| 0 <= j < |edges| && edges[j] == owners[k];
      EdgeMapOwner(edges, j, ts[k].id);
    }
  }

  /** The steps the rotated alignment emits. */
  lemma EmitRotated(a0: Tagged, a1: Tagged, a2: Tagged, b0: Tagged, b1: Tagged, b2: Tagged)
    ensures EmitAll([OnlyA(a0), Both(a1, b1), Both(a2, b2), OnlyB(b0)]) ==
              [Drag(a0), Drag(a1), Drop(b1), Drag(a2), Drop(b2), Drop(b0)]
  {
    var c3 := [OnlyB(b0)];
    var c2 := [Both(a2, b2)] + c3;
    var c1 := [Both(a1, b1)] + c2;
    var c0 := [OnlyA(a0)] + c1;
    assert c3[1..] == [] && c2[1..] == c3 && c1[1..] == c2 && c0[1..] == c1;
    assert EmitAll(c3) == [Drop(b0)];
    assert EmitAll(c2) == [Drag(a2), Drop(b2), Drop(b0)];
    assert EmitAll(c1) == [Drag(a1), Drop(b1), Drag(a2), Drop(b2), Drop(b0)];
    assert c0 == [OnlyA(a0), Both(a1, b1), Both(a2, b2), OnlyB(b0)];
  }

  /** The raw diff of a three-token graph whose target is rotated. */
  lemma RotatedRaw(g: Graph, s0: Token, s1: Token, s2: Token, t0: Token, t1: Token, t2: Token,
                   e0: Edge, e1: Edge, e2: Edge)
    requires g.source == [s0, s1, s2] && g.target == [t1, t2, t0] && g.edges == [e0, e1, e2]
    requires e0.ids == [s0.id, t0.id] && e1.ids == [s1.id, t1.id] && e2.ids == [s2.id, t2.id]
    requires Disjoint(g.edges)
    requires e0.id != e1.id && e1.id != e2.id && e0.id != e2.id
    ensures Owned(g.edges, g.source) && Owned(g.edges, g.target)
    ensures RawDiff(g) == [Drag(Tagged(s0, e0)), Drag(Tagged(s1, e1)), Drop(Tagged(t1, e1)),
                           Drag(Tagged(s2, e2)), Drop(Tagged(t2, e2)), Drop(Tagged(t0, e0))]
  {
    var a0, a1, a2 := Tagged(s0, e0), Tagged(s1, e1), Tagged(s2, e2);
    var b0, b1, b2 := Tagged(t0, e0), Tagged(t1, e1), Tagged(t2, e2);
    RotatedTags(g, s0, s1, s2, t0, t1, t2, e0, e1, e2);
    AlignRotated(a0, a1, a2, b0, b1, b2);
    EmitRotated(a0, a1, a2, b0, b1, b2);
  }

  /** Tagging both sides of the rotated graph. */
  lemma RotatedTags(g: Graph, s0: Token, s1: Token, s2: Token, t0: Token, t1: Token, t2: Token,
                    e0: Edge, e1: Edge, e2: Edge)
    requires g.source == [s0, s1, s2] && g.target == [t1, t2, t0] && g.edges == [e0, e1, e2]
    requires e0.ids == [s0.id, t0.id] && e1.ids == [s1.id, t1.id] && e2.ids == [s2.id, t2.id]
    requires Disjoint(g.edges)
    ensures Owned(g.edges, g.source) && Owned(g.edges, g.target)
    ensures Tag(g.edges, g.source) == [Tagged(s0, e0), Tagged(s1, e1), Tagged(s2, e2)]
    ensures Tag(g.edges, g.target) == [Tagged(t1, e1), Tagged(t2, e2), Tagged(t0, e0)]
  {
    TagThree(g.edges, s0, s1, s2, e0, e1, e2);
    TagThree(g.edges, t1, t2, t0, e1, e2, e0);
  }

  /** Tagging three tokens whose owning edges are known. */
  lemma TagThree(edges: seq<Edge>, x0: Token, x1: Token, x2: Token, o0: Edge, o1: Edge, o2: Edge)
    requires Disjoint(edges) && o0 in edges && o1 in edges && o2 in edges
    requires x0.id in o0.ids && x1.id in o1.ids && x2.id in o2.ids
    ensures Owned(edges, [x0, x1, x2])
    ensures Tag(edges, [x0, x1, x2]) == [Tagged(x0, o0), Tagged(x1, o1), Tagged(x2, o2)]
  {
    var ts, os := [x0, x1, x2], [o0, o1, o2];
    assert forall k | 0 <= k < 3 :: os[k] in edges && ts[k].id in os[k].ids;
    TagPairs(edges, ts, os);
    var r := Tag(edges, ts);
    Three(r, Tagged(x0, o0), Tagged(x1, o1), Tagged(x2, o2));
  }

  /** A sequence of three known elements. */
  lemma Three<T>(r: seq<T>, a: T, b: T, c: T)
    requires |r| == 3 && r[0] == a && r[1] == b && r[2] == c
    ensures r == [a, b, c]
  {
  }

  /** The diff of a three-token graph whose target is its source rotated
      left by one, each source token sharing an edge with its copy: the
      first token is dragged away and dropped at the end, and the other two
      are edited in place. */
  lemma RotatedDiff(g: Graph, s0: Token, s1: Token, s2: Token, t0: Token, t1: Token, t2: Token,
                    e0: Edge, e1: Edge, e2: Edge)
    requires g.source == [s0, s1, s2] && g.target == [t1, t2, t0] && g.edges == [e0, e1, e2]
    requires e0.ids == [s0.id, t0.id] && e1.ids == [s1.id, t1.id] && e2.ids == [s2.id, t2.id]
    requires Disjoint(g.edges)
    requires e0.id != e1.id && e1.id != e2.id && e0.id != e2.id
    ensures Owned(g.edges, g.source) && Owned(g.edges, g.target)
    ensures CalculateDiff(g) == [Dragged(s0, e0.id, e0.labels), Edited([s1], [t1], e1.id, e1.labels),
                                 Edited([s2], [t2], e2.id, e2.labels), Dropped(t0, e0.id, e0.labels)]
  {
    RotatedRaw(g, s0, s1, s2, t0, t1, t2, e0, e1, e2);
    var a0, a1, a2 := Tagged(s0, e0), Tagged(s1, e1), Tagged(s2, e2);
    var b0, b1, b2 := Tagged(t0, e0), Tagged(t1, e1), Tagged(t2, e2);
    MergeRotated(Drag(a0), Drag(a1), Drop(b1), Drag(a2), Drop(b2), Drop(b0));
    PairGroup(a1, b1);
    PairGroup(a2, b2);
  }

  /** A drag followed by a drop of the same edge collapses into one edit. */
  lemma PairGroup(a: Tagged, b: Tagged)
    ensures Group([Drag(a), Drop(b)]) == Edited([a.token], [b.token], a.edge.id, a.edge.labels)
  {
    SidesCons(Drag(a), [Drop(b)]);
    SidesCons(Drop(b), []);
  }

  /** Aligning three tokens with four where the middle token became two
      tokens sharing its edge: the second of them is unmatched. */
  lemma AlignSplit(a0: Tagged, a1: Tagged, a2: Tagged, b0: Tagged, b3: Tagged, b4: Tagged, b2: Tagged)
    requires a0.edge.id == b0.edge.id && a1.edge.id == b3.edge.id == b4.edge.id && a2.edge.id == b2.edge.id
    requires a1.edge.id != a2.edge.id
    ensures Align([a0, a1, a2], [b0, b3, b4, b2]) == [Both(a0, b0), Both(a1, b3), OnlyB(b4), Both(a2, b2)]
  {
    assert Align([], []) == [];
    assert Align([a2], [b2]) == [Both(a2, b2)] by { assert [a2][1..] == [] && [b2][1..] == []; }
    assert Align([], [b2]) == [OnlyB(b2)] by { assert [b2][1..] == []; }
    assert Align([], [b4, b2]) == [OnlyB(b4), OnlyB(b2)] by { assert [b4, b2][1..] == [b2]; }
    MatchesCons(OnlyB(b2), []);
    MatchesCons(OnlyB(b4), [OnlyB(b2)]);
    MatchesCons(OnlyA(a2), [OnlyB(b4), OnlyB(b2)]);
    MatchesCons(Both(a2, b2), []);
    MatchesCons(OnlyB(b4), [Both(a2, b2)]);
    assert Align([a2], [b4, b2]) == [OnlyB(b4), Both(a2, b2)] by {
      assert [a2][1..] == [] && [b4, b2][1..] == [b2];
    }
    assert Align([a1, a2], [b3, b4, b2]) == [Both(a1, b3), OnlyB(b4), Both(a2, b2)] by {
      assert [a1, a2][1..] == [a2] && [b3, b4, b2][1..] == [b4, b2];
    }
    assert [a0, a1, a2][1..] == [a1, a2] && [b0, b3, b4, b2][1..] == [b3, b4, b2];
  }

  /** The steps the split alignment emits. */
  lemma EmitSplit(a0: Tagged, a1: Tagged, a2: Tagged, b0: Tagged, b3: Tagged, b4: Tagged, b2: Tagged)
    ensures EmitAll([Both(a0, b0), Both(a1, b3), OnlyB(b4), Both(a2, b2)]) ==
              [Drag(a0), Drop(b0), Drag(a1), Drop(b3), Drop(b4), Drag(a2), Drop(b2)]
  {
    var c3 := [Both(a2, b2)];
    var c2 := [OnlyB(b4)] + c3;
    var c1 := [Both(a1, b3)] + c2;
    var c0 := [Both(a0, b0)] + c1;
    assert c3[1..] == [] && c2[1..] == c3 && c1[1..] == c2 && c0[1..] == c1;
    assert EmitAll(c3) == [Drag(a2), Drop(b2)];
    assert EmitAll(c2) == [Drop(b4), Drag(a2), Drop(b2)];
    assert EmitAll(c1) == [Drag(a1), Drop(b3), Drop(b4), Drag(a2), Drop(b2)];
    assert c0 == [Both(a0, b0), Both(a1, b3), OnlyB(b4), Both(a2, b2)];
  }

  /** Merging the steps of the split example: three contiguous runs. */
  lemma MergeSplit(d0: Diff, d1: Diff, d2: Diff, d3: Diff, d4: Diff, d5: Diff, d6: Diff)
    requires d0.id == d1.id && d2.id == d3.id == d4.id && d5.id == d6.id
    requires d0.id != d2.id && d2.id != d5.id && d0.id != d5.id
    ensures MergeDiff([d0, d1, d2, d3, d4, d5, d6]) == [Group([d0, d1]), Group([d2, d3, d4]), Group([d5, d6])]
  {
    SplitRuns(d0, d1, d2, d3, d4, d5, d6);
    SplitMerge([d0, d1, d2, d3, d4, d5, d6]);
  }

  /** Merging a stream of seven entries made of three runs. */
  lemma SplitMerge(ds: seq<Diff>)
    requires |ds| == 7
    requires Run(ds, ds[0].id) == [0, 1] && Run(ds, ds[2].id) == [2, 3, 4] && Run(ds, ds[5].id) == [5, 6]
    ensures MergeFrom(ds, 0) == [Group([ds[0], ds[1]]), Group([ds[2], ds[3], ds[4]]), Group([ds[5], ds[6]])]
  {
    assert MergeFrom(ds, 7) == [];
    MergePair(ds, 5);
    MergeTriple(ds, 2);
    MergePair(ds, 0);
  }

  /** A run of two entries starting at `i` becomes one group. */
  lemma MergePair(ds: seq<Diff>, i: nat)
    requires i + 2 <= |ds| && Run(ds, ds[i].id) == [i, i + 1]
    ensures MergeFrom(ds, i) == [Group([ds[i], ds[i + 1]])] + MergeFrom(ds, i + 2)
  {
    MergeRun(ds, i, 2);
    assert ds[i..i + 2] == [ds[i], ds[i + 1]];
  }

  /** A run of three entries starting at `i` becomes one group. */
  lemma MergeTriple(ds: seq<Diff>, i: nat)
    requires i + 3 <= |ds| && Run(ds, ds[i].id) == [i, i + 1, i + 2]
    ensures MergeFrom(ds, i) == [Group([ds[i], ds[i + 1], ds[i + 2]])] + MergeFrom(ds, i + 3)
  {
    MergeRun(ds, i, 3);
    assert ds[i..i + 3] == [ds[i], ds[i + 1], ds[i + 2]];
  }

  /** The runs of the three edges in the split example. */
  lemma SplitRuns(d0: Diff, d1: Diff, d2: Diff, d3: Diff, d4: Diff, d5: Diff, d6: Diff)
    requires d0.id == d1.id && d2.id == d3.id == d4.id && d5.id == d6.id
    requires d0.id != d2.id && d2.id != d5.id && d0.id != d5.id
    ensures Run([d0, d1, d2, d3, d4, d5, d6], d0.id) == [0, 1]
    ensures Run([d0, d1, d2, d3, d4, d5, d6], d2.id) == [2, 3, 4]
    ensures Run([d0, d1, d2, d3, d4, d5, d6], d5.id) == [5, 6]
  {
    var ds := [d0, d1, d2, d3, d4, d5, d6];
    assert Run(ds, d0.id) == [0, 1] by {
      PositionsExact(ds, d0.id, 0, [0, 1]);
    }
    assert Run(ds, d2.id) == [2, 3, 4] by {
      PositionsExact(ds, d2.id, 0, [2, 3, 4]);
    }
    assert Run(ds, d5.id) == [5, 6] by {
      PositionsExact(ds, d5.id, 0, [5, 6]);
    }
  }

  /** A contiguous run of `n` entries starting at `i` becomes one group. */
  lemma MergeRun(ds: seq<Diff>, i: nat, n: nat)
    requires i < |ds| && 0 < n && i + n <= |ds|
    requires Contiguous(Run(ds, ds[i].id)) && |Run(ds, ds[i].id)| == n
    ensures MergeFrom(ds, i) == [Group(ds[i..i + n])] + MergeFrom(ds, i + n)
  {
    assert Next(ds, i) == i + n;
    assert Head(ds, i) == Group(ds[i..i + n]);
  }

  /** A drag followed by two drops of the same edge collapses into one
      edit. */
  lemma TripleGroup(a: Tagged, b: Tagged, c: Tagged)
    ensures Group([Drag(a), Drop(b), Drop(c)]) == Edited([a.token], [b.token, c.token], a.edge.id, a.edge.labels)
  {
    SidesCons(Drag(a), [Drop(b), Drop(c)]);
    SidesCons(Drop(b), [Drop(c)]);
    SidesCons(Drop(c), []);
  }

  /** Tagging four tokens whose owning edges are known. */
  lemma TagFour(edges: seq<Edge>, x0: Token, x1: Token, x2: Token, x3: Token, o0: Edge, o1: Edge, o2: Edge, o3: Edge)
    requires Disjoint(edges) && o0 in edges && o1 in edges && o2 in edges && o3 in edges
    requires x0.id in o0.ids && x1.id in o1.ids && x2.id in o2.ids && x3.id in o3.ids
    ensures Owned(edges, [x0, x1, x2, x3])
    ensures Tag(edges, [x0, x1, x2, x3]) == [Tagged(x0, o0), Tagged(x1, o1), Tagged(x2, o2), Tagged(x3, o3)]
  {
    TagFourAt(edges, [x0, x1, x2, x3], [o0, o1, o2, o3]);
    Four(Tag(edges, [x0, x1, x2, x3]), Tagged(x0, o0), Tagged(x1, o1), Tagged(x2, o2), Tagged(x3, o3));
  }
  /** The four tags, entry by entry. */
  lemma TagFourAt(edges: seq<Edge>, ts: seq<Token>, os: seq<Edge>)
    requires Disjoint(edges) && |ts| == 4 && |os| == 4
    requires os[0] in edges && os[1] in edges && os[2] in edges && os[3] in edges
    requires ts[0].id in os[0].ids && ts[1].id in os[1].ids && ts[2].id in os[2].ids && ts[3].id in os[3].ids
    ensures Owned(edges, ts)
    ensures Tag(edges, ts)[0] == Tagged(ts[0], os[0]) && Tag(edges, ts)[1] == Tagged(ts[1], os[1])
    ensures Tag(edges, ts)[2] == Tagged(ts[2], os[2]) && Tag(edges, ts)[3] == Tagged(ts[3], os[3])
  {
    TagPairs(edges, ts, os);
  }
  /** A sequence of four known elements. */
  lemma Four<T>(r: seq<T>, a: T, b: T, c: T, d: T)
    requires |r| == 4 && r[0] == a && r[1] == b && r[2] == c && r[3] == d
    ensures r == [a, b, c, d]
  {
  }

  /** The raw diff of the split graph. */
  lemma SplitRaw(g: Graph, s0: Token, s1: Token, s2: Token, t0: Token, u3: Token, u4: Token, t2: Token,
                 e0: Edge, e2: Edge, m: Edge)
    requires g.source == [s0, s1, s2] && g.target == [t0, u3, u4, t2] && g.edges == [e0, e2, m]
    requires e0.ids == [s0.id, t0.id] && e2.ids == [s2.id, t2.id] && m.ids == [u3.id, u4.id, s1.id]
    requires Disjoint(g.edges)
    requires m.id != e2.id
    ensures Owned(g.edges, g.source) && Owned(g.edges, g.target)
    ensures RawDiff(g) == [Drag(Tagged(s0, e0)), Drop(Tagged(t0, e0)), Drag(Tagged(s1, m)), Drop(Tagged(u3, m)),
                           Drop(Tagged(u4, m)), Drag(Tagged(s2, e2)), Drop(Tagged(t2, e2))]
  {
    TagThree(g.edges, s0, s1, s2, e0, m, e2);
    TagFour(g.edges, t0, u3, u4, t2, e0, m, m, e2);
    AlignSplit(Tagged(s0, e0), Tagged(s1, m), Tagged(s2, e2), Tagged(t0, e0), Tagged(u3, m), Tagged(u4, m), Tagged(t2, e2));
    EmitSplit(Tagged(s0, e0), Tagged(s1, m), Tagged(s2, e2), Tagged(t0, e0), Tagged(u3, m), Tagged(u4, m), Tagged(t2, e2));
  }

  /** The diff of a graph whose middle target token was replaced by two
      tokens on a new edge that also lists the middle source token: three
      edits, the middle one from one token to two. */
  lemma SplitDiff(g: Graph, s0: Token, s1: Token, s2: Token, t0: Token, u3: Token, u4: Token, t2: Token,
                  e0: Edge, e2: Edge, m: Edge)
    requires g.source == [s0, s1, s2] && g.target == [t0, u3, u4, t2] && g.edges == [e0, e2, m]
    requires e0.ids == [s0.id, t0.id] && e2.ids == [s2.id, t2.id] && m.ids == [u3.id, u4.id, s1.id]
    requires Disjoint(g.edges)
    requires e0.id != m.id && m.id != e2.id && e0.id != e2.id
    ensures Owned(g.edges, g.source) && Owned(g.edges, g.target)
    ensures CalculateDiff(g) == [Edited([s0], [t0], e0.id, e0.labels), Edited([s1], [u3, u4], m.id, m.labels),
                                 Edited([s2], [t2], e2.id, e2.labels)]
  {
    SplitRaw(g, s0, s1, s2, t0, u3, u4, t2, e0, e2, m);
    MergeSplit(Drag(Tagged(s0, e0)), Drop(Tagged(t0, e0)), Drag(Tagged(s1, m)), Drop(Tagged(u3, m)),
               Drop(Tagged(u4, m)), Drag(Tagged(s2, e2)), Drop(Tagged(t2, e2)));
    PairGroup(Tagged(s0, e0), Tagged(t0, e0));
    TripleGroup(Tagged(s1, m), Tagged(u3, m), Tagged(u4, m));
    PairGroup(Tagged(s2, e2), Tagged(t2, e2));
  }

  // ---------------------------------------------------------------------
  // The graph of "apa bepa cepa "
  // ---------------------------------------------------------------------

  /** "apa bepa cepa " splits into three tokens with their trailing space. */
  lemma ExampleTokens()
    ensures Tokenize("apa bepa cepa ") == ["apa ", "bepa ", "cepa "]
  {
    FirstApa();
    FirstBepa();
    FirstCepa();
  }

  /** The first token of "apa bepa cepa ", and the rest of the text. */
  lemma FirstApa()
    ensures Tokenize("apa bepa cepa ") == ["apa "] + Tokenize("bepa cepa ")
  {
    var s := "apa bepa cepa ";
    assert !Blank(s) by { assert !IsSpace(s[0]); }
    assert SkipSpace(s, 0) == 0 && SkipWord(s, 0) == 3 && SkipSpace(s, 3) == 4;
    assert s[..4] == "apa " && s[4..] == "bepa cepa ";
  }

  /** The first token of "bepa cepa ", and the rest of the text. */
  lemma FirstBepa()
    ensures Tokenize("bepa cepa ") == ["bepa "] + Tokenize("cepa ")
  {
    var s := "bepa cepa ";
    assert !Blank(s) by { assert !IsSpace(s[0]); }
    assert SkipSpace(s, 0) == 0 && SkipWord(s, 0) == 4 && SkipSpace(s, 4) == 5;
    assert s[..5] == "bepa " && s[5..] == "cepa ";
  }

  /** "cepa " is a single token. */
  lemma FirstCepa()
    ensures Tokenize("cepa ") == ["cepa "]
  {
    var s := "cepa ";
    assert !Blank(s) by { assert !IsSpace(s[0]); }
    assert SkipSpace(s, 0) == 0 && SkipWord(s, 0) == 4 && SkipSpace(s, 4) == 5;
    assert s[..5] == "cepa " && s[5..] == "" && Blank("");
  }

  /** The names of the three edges `init` builds. */
  lemma PairNames()
    ensures EdgeName([Id(Source, 0), Id(Target, 0)]) == "s0-t0"
    ensures EdgeName([Id(Source, 1), Id(Target, 1)]) == "s1-t1"
    ensures EdgeName([Id(Source, 2), Id(Target, 2)]) == "s2-t2"
  {
    assert Name(Id(Source, 0)) == "s0" && Name(Id(Target, 0)) == "t0";
    assert Name(Id(Source, 1)) == "s1" && Name(Id(Target, 1)) == "t1";
    assert Name(Id(Source, 2)) == "s2" && Name(Id(Target, 2)) == "t2";
    assert Names([Id(Source, 0), Id(Target, 0)]) == ["s0", "t0"];
    assert Names([Id(Source, 1), Id(Target, 1)]) == ["s1", "t1"];
    assert Names([Id(Source, 2), Id(Target, 2)]) == ["s2", "t2"];
    assert ["s0", "t0"][1..] == ["t0"] && ["s1", "t1"][1..] == ["t1"] && ["s2", "t2"][1..] == ["t2"];
  }

  /** The source token numbered `k`, and the target one. */
  function Src(k: nat, text: string): Token { Token(text, Id(Source, k)) }

  function Tgt(k: nat, text: string): Token { Token(text, Id(Target, k)) }

  /** `init("apa bepa cepa ")`: three tokens on each side, each source
      token paired with its target copy by an edge without labels. */
  lemma ExampleInit()
    ensures Init("apa bepa cepa ") ==
      Graph([Src(0, "apa "), Src(1, "bepa "), Src(2, "cepa ")],
            [Tgt(0, "apa "), Tgt(1, "bepa "), Tgt(2, "cepa ")],
            [Edge("s0-t0", [Id(Source, 0), Id(Target, 0)], []),
             Edge("s1-t1", [Id(Source, 1), Id(Target, 1)], []),
             Edge("s2-t2", [Id(Source, 2), Id(Target, 2)], [])])
  {
    var ts := ["apa ", "bepa ", "cepa "];
    assert Init("apa bepa cepa ") == InitFrom(ts) by {
      ExampleTokens();
    }
    InitSides(ts);
    InitPairs(ts);
  }

  /** Both sides of `init_from` on the three tokens. */
  lemma InitSides(ts: seq<string>)
    requires ts == ["apa ", "bepa ", "cepa "]
    ensures InitFrom(ts).source == [Src(0, "apa "), Src(1, "bepa "), Src(2, "cepa ")]
    ensures InitFrom(ts).target == [Tgt(0, "apa "), Tgt(1, "bepa "), Tgt(2, "cepa ")]
  {
    var g := InitFrom(ts);
    Three(g.source, Src(0, "apa "), Src(1, "bepa "), Src(2, "cepa "));
    Three(g.target, Tgt(0, "apa "), Tgt(1, "bepa "), Tgt(2, "cepa "));
  }

  /** The edges of `init_from` on the three tokens. */
  lemma InitPairs(ts: seq<string>)
    requires ts == ["apa ", "bepa ", "cepa "]
    ensures InitFrom(ts).edges == [Edge("s0-t0", [Id(Source, 0), Id(Target, 0)], []),
                                   Edge("s1-t1", [Id(Source, 1), Id(Target, 1)], []),
                                   Edge("s2-t2", [Id(Source, 2), Id(Target, 2)], [])]
  {
    var g := InitFrom(ts);
    PairNames();
    Three(g.edges, Edge("s0-t0", [Id(Source, 0), Id(Target, 0)], []),
                   Edge("s1-t1", [Id(Source, 1), Id(Target, 1)], []),
                   Edge("s2-t2", [Id(Source, 2), Id(Target, 2)], []));
  }

  /** The edges of that graph share no id. */
  lemma ExampleDisjoint()
    ensures Disjoint([Edge("s0-t0", [Id(Source, 0), Id(Target, 0)], []),
                      Edge("s1-t1", [Id(Source, 1), Id(Target, 1)], []),
                      Edge("s2-t2", [Id(Source, 2), Id(Target, 2)], [])])
  {
  }

  /** The `k`th edge of that graph. */
  function E(k: nat): Edge
    requires k < 3
  {
    [Edge("s0-t0", [Id(Source, 0), Id(Target, 0)], []),
     Edge("s1-t1", [Id(Source, 1), Id(Target, 1)], []),
     Edge("s2-t2", [Id(Source, 2), Id(Target, 2)], [])][k]
  }

  /** Moving the last two of three elements to the front. */
  lemma MoveFront<T>(a: T, b: T, c: T)
    ensures Move([a, b, c], 1, 2, 0) == [b, c, a]
  {
    assert Landing(3, 1, 2, 0) == 0;
    assert [a, b, c][..1] + [a, b, c][3..] == [a];
  }

  /** `rearrange(init("apa bepa cepa "), 1, 2, 0)` rotates the target. */
  lemma RearrangedExample()
    ensures |Init("apa bepa cepa ").target| == 3
    ensures Rearrange(Init("apa bepa cepa "), 1, 2, 0) ==
      Graph([Src(0, "apa "), Src(1, "bepa "), Src(2, "cepa ")],
            [Tgt(1, "bepa "), Tgt(2, "cepa "), Tgt(0, "apa ")],
            [E(0), E(1), E(2)])
  {
    ExampleInit();
    MoveFront(Tgt(0, "apa "), Tgt(1, "bepa "), Tgt(2, "cepa "));
  }

  /** The diff of the rotated graph. */
  lemma RotatedExample()
    ensures var g := Graph([Src(0, "apa "), Src(1, "bepa "), Src(2, "cepa ")],
            [Tgt(1, "bepa "), Tgt(2, "cepa "), Tgt(0, "apa ")],
            [E(0), E(1), E(2)]);
      && Owned(g.edges, g.source) && Owned(g.edges, g.target)
      && CalculateDiff(g) ==
         [Dragged(Src(0, "apa "), "s0-t0", []),
          Edited([Src(1, "bepa ")], [Tgt(1, "bepa ")], "s1-t1", []),
          Edited([Src(2, "cepa ")], [Tgt(2, "cepa ")], "s2-t2", []),
          Dropped(Tgt(0, "apa "), "s0-t0", [])]
  {
    var g := Graph([Src(0, "apa "), Src(1, "bepa "), Src(2, "cepa ")],
            [Tgt(1, "bepa "), Tgt(2, "cepa "), Tgt(0, "apa ")],
            [E(0), E(1), E(2)]);
    ExampleDisjoint();
    RotatedDiff(g, Src(0, "apa "), Src(1, "bepa "), Src(2, "cepa "), Tgt(0, "apa "), Tgt(1, "bepa "), Tgt(2, "cepa "),
                E(0), E(1), E(2));
  }

  /** The first documented example of `calculate_diff`: after moving
      the last two target tokens to the front, "apa " is dragged from the
      start of the source and dropped at the end of the target, and "bepa "
      and "cepa " are each edited in place, on the edges `init` named. */
  lemma RearrangeDiffExample()
    ensures |Init("apa bepa cepa ").target| == 3
    ensures Owned(Rearrange(Init("apa bepa cepa "), 1, 2, 0).edges, Rearrange(Init("apa bepa cepa "), 1, 2, 0).source)
    ensures Owned(Rearrange(Init("apa bepa cepa "), 1, 2, 0).edges, Rearrange(Init("apa bepa cepa "), 1, 2, 0).target)
    ensures CalculateDiff(Rearrange(Init("apa bepa cepa "), 1, 2, 0)) ==
         [Dragged(Src(0, "apa "), "s0-t0", []),
          Edited([Src(1, "bepa ")], [Tgt(1, "bepa ")], "s1-t1", []),
          Edited([Src(2, "cepa ")], [Tgt(2, "cepa ")], "s2-t2", []),
          Dropped(Tgt(0, "apa "), "s0-t0", [])]
  {
    RearrangedExample();
    RotatedExample();
  }

  // ---------------------------------------------------------------------
  // Replacing "bepa " by "depa epa "
  // ---------------------------------------------------------------------

  /** The edge `modify_tokens` builds in this example. */
  function Merged(): Edge {
    Edge("t3-t4-s1", [Id(Target, 3), Id(Target, 4), Id(Source, 1)], [])
  }

  /** "depa epa " splits into two tokens. */
  lemma ReplacementTokens()
    ensures Tokenize("depa epa ") == ["depa ", "epa "]
  {
    FirstDepa();
    FirstEpa();
  }

  /** The first token of "depa epa ", and the rest of the text. */
  lemma FirstDepa()
    ensures Tokenize("depa epa ") == ["depa "] + Tokenize("epa ")
  {
    var s := "depa epa ";
    assert !Blank(s) by { assert !IsSpace(s[0]); }
    assert SkipSpace(s, 0) == 0 && SkipWord(s, 0) == 4 && SkipSpace(s, 4) == 5;
    assert s[..5] == "depa " && s[5..] == "epa ";
  }

  /** "epa " is a single token. */
  lemma FirstEpa()
    ensures Tokenize("epa ") == ["epa "]
  {
    var s := "epa ";
    assert !Blank(s) by { assert !IsSpace(s[0]); }
    assert SkipSpace(s, 0) == 0 && SkipWord(s, 0) == 3 && SkipSpace(s, 3) == 4;
    assert s[..4] == "epa " && s[4..] == "" && Blank("");
  }

  /** The next free number after t0, t1 and t2. */
  lemma ExampleNextId()
    ensures NextId([Id(Target, 0), Id(Target, 1), Id(Target, 2)]) == 3
  {
    var ids := [Id(Target, 0), Id(Target, 1), Id(Target, 2)];
    assert ids[1..] == [Id(Target, 1), Id(Target, 2)] && ids[1..][1..] == [Id(Target, 2)] && ids[1..][1..][1..] == [];
  }

  /** "depa epa " is not only whitespace and ends in whitespace, so no
      neighbour is absorbed. */
  lemma ExampleAbsorb(g: Graph)
    requires |g.target| == 3
    ensures Absorb(g, 1, 2, "depa epa ") == Extent(1, 2, "depa epa ")
  {
    var s := "depa epa ";
    assert !OnlySpace(s) by { assert !IsSpace(s[0]); }
    assert !EndsInWord(s);
  }

  /** The created tokens are t3 and t4. */
  lemma ExampleCreated()
    ensures FreshTokens(["depa ", "epa "], 3) == [Tgt(3, "depa "), Tgt(4, "epa ")]
    ensures Ids([Tgt(3, "depa "), Tgt(4, "epa ")]) == [Id(Target, 3), Id(Target, 4)]
  {
  }

  /** Only t1 is removed. */
  lemma ExampleRemoved()
    ensures RemovedIds([Tgt(0, "apa "), Tgt(1, "bepa "), Tgt(2, "cepa ")], 1, 2) == {Id(Target, 1)}
  {
    var ts := [Tgt(0, "apa "), Tgt(1, "bepa "), Tgt(2, "cepa ")];
    assert ts[1].id in RemovedIds(ts, 1, 2);
  }

  /** The created tokens are numbered from 3. */
  lemma TargetNextId(ts: seq<Token>)
    requires ts == [Tgt(0, "apa "), Tgt(1, "bepa "), Tgt(2, "cepa ")]
    ensures NextId(Ids(ts)) == 3
  {
    assert Ids(ts) == [Id(Target, 0), Id(Target, 1), Id(Target, 2)];
    ExampleNextId();
  }

  /** The tokens the splice creates. */
  lemma SplicedCreated(ts: seq<Token>)
    requires ts == [Tgt(0, "apa "), Tgt(1, "bepa "), Tgt(2, "cepa ")]
    ensures FreshTokens(Tokenize("depa epa "), NextId(Ids(ts))) == [Tgt(3, "depa "), Tgt(4, "epa ")]
  {
    ReplacementTokens();
    TargetNextId(ts);
    ExampleCreated();
  }

  /** The created tokens and the target around them. */
  lemma SplicedTarget(ts: seq<Token>)
    requires ts == [Tgt(0, "apa "), Tgt(1, "bepa "), Tgt(2, "cepa ")]
    ensures ts[..1] + [Tgt(3, "depa "), Tgt(4, "epa ")] + ts[2..] == [Tgt(0, "apa "), Tgt(3, "depa "), Tgt(4, "epa "), Tgt(2, "cepa ")]
  {
  }

  /** The edges after the splice: the untouched pairs, then the merged edge. */
  lemma SplicedEdges(g: Graph)
    requires g.target == [Tgt(0, "apa "), Tgt(1, "bepa "), Tgt(2, "cepa ")]
    requires g.edges == [E(0), E(1), E(2)]
    ensures Reconcile(g.edges, RemovedIds(g.target, 1, 2), [Id(Target, 3), Id(Target, 4)]) == [E(0), E(2), Merged()]
  {
    ExampleRemoved();
    ReconcileExample(E(0), E(1), E(2));
  }

  /** The splice of the single token `1..2`. */
  lemma SpliceExample(g: Graph)
    requires g.target == [Tgt(0, "apa "), Tgt(1, "bepa "), Tgt(2, "cepa ")]
    requires g.edges == [E(0), E(1), E(2)]
    ensures SpliceTokens(g, Extent(1, 2, "depa epa ")) ==
      Graph(g.source, [Tgt(0, "apa "), Tgt(3, "depa "), Tgt(4, "epa "), Tgt(2, "cepa ")], [E(0), E(2), Merged()])
  {
    SplicedCreated(g.target);
    SplicedTarget(g.target);
    ExampleCreated();
    SplicedEdges(g);
  }

  /** `modify_tokens` on any graph with these targets and edges. */
  lemma ModifiedFrom(g: Graph)
    requires g.target == [Tgt(0, "apa "), Tgt(1, "bepa "), Tgt(2, "cepa ")]
    requires g.edges == [E(0), E(1), E(2)]
    ensures ModifyTokens(g, 1, 2, "depa epa ") ==
      Graph(g.source, [Tgt(0, "apa "), Tgt(3, "depa "), Tgt(4, "epa "), Tgt(2, "cepa ")], [E(0), E(2), Merged()])
  {
    ExampleAbsorb(g);
    SpliceExample(g);
  }

  /** `modify_tokens(init("apa bepa cepa "), 1, 2, "depa epa ")`. */
  lemma ExampleModified()
    ensures |Init("apa bepa cepa ").target| == 3
    ensures ModifyTokens(Init("apa bepa cepa "), 1, 2, "depa epa ") ==
      Graph([Src(0, "apa "), Src(1, "bepa "), Src(2, "cepa ")],
            [Tgt(0, "apa "), Tgt(3, "depa "), Tgt(4, "epa "), Tgt(2, "cepa ")],
            [E(0), E(2), Merged()])
  {
    ExampleInit();
    ModifiedFrom(Init("apa bepa cepa "));
  }

  /** The edges of the modified graph share no id. */
  lemma ModifiedDisjoint()
    ensures Disjoint([E(0), E(2), Merged()])
  {
  }

  /** The diff of the modified graph. */
  lemma ModifiedConcrete()
    ensures var g := Graph([Src(0, "apa "), Src(1, "bepa "), Src(2, "cepa ")],
                           [Tgt(0, "apa "), Tgt(3, "depa "), Tgt(4, "epa "), Tgt(2, "cepa ")],
                           [E(0), E(2), Merged()]);
      && Owned(g.edges, g.source) && Owned(g.edges, g.target)
      && CalculateDiff(g) ==
         [Edited([Src(0, "apa ")], [Tgt(0, "apa ")], "s0-t0", []),
          Edited([Src(1, "bepa ")], [Tgt(3, "depa "), Tgt(4, "epa ")], "t3-t4-s1", []),
          Edited([Src(2, "cepa ")], [Tgt(2, "cepa ")], "s2-t2", [])]
  {
    var g := Graph([Src(0, "apa "), Src(1, "bepa "), Src(2, "cepa ")],
                   [Tgt(0, "apa "), Tgt(3, "depa "), Tgt(4, "epa "), Tgt(2, "cepa ")],
                   [E(0), E(2), Merged()]);
    ModifiedDisjoint();
    SplitDiff(g, Src(0, "apa "), Src(1, "bepa "), Src(2, "cepa "), Tgt(0, "apa "), Tgt(3, "depa "), Tgt(4, "epa "), Tgt(2, "cepa "),
              E(0), E(2), Merged());
  }

  /** The second documented example of `calculate_diff`: after "bepa "
      is replaced by "depa epa ", every source token is edited; "bepa "
      into the two created tokens t3 and t4, on the merged edge `t3-t4-s1`. */
  lemma ModifyDiffExample()
    ensures |Init("apa bepa cepa ").target| == 3
    ensures Owned(ModifyTokens(Init("apa bepa cepa "), 1, 2, "depa epa ").edges, ModifyTokens(Init("apa bepa cepa "), 1, 2, "depa epa ").source)
    ensures Owned(ModifyTokens(Init("apa bepa cepa "), 1, 2, "depa epa ").edges, ModifyTokens(Init("apa bepa cepa "), 1, 2, "depa epa ").target)
    ensures CalculateDiff(ModifyTokens(Init("apa bepa cepa "), 1, 2, "depa epa ")) ==
         [Edited([Src(0, "apa ")], [Tgt(0, "apa ")], "s0-t0", []),
          Edited([Src(1, "bepa ")], [Tgt(3, "depa "), Tgt(4, "epa ")], "t3-t4-s1", []),
          Edited([Src(2, "cepa ")], [Tgt(2, "cepa ")], "s2-t2", [])]
  {
    ExampleModified();
    ModifiedConcrete();
  }
}
