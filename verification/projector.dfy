/** The text-edit projector of `src/Graph.ts`: a character-range replacement
    on the flattened target text becomes a token-level splice that keeps the
    identity of untouched tokens and folds every disturbed edge into one. */
module Projector {
  import opened Seqs
  import opened Tokenizer
  import opened Identity
  import opened Graphs

  /** A character position resolved to a token and an offset inside it. */
  datatype Position = Position(token: nat, offset: nat)

  /** The number of characters in the first `i` strings. */
  function Width(ts: seq<string>, i: nat): nat
    requires i <= |ts|
  {
    |Concat(ts[..i])|
  }

  lemma WidthStep(ts: seq<string>, i: nat)
    requires i < |ts|
    ensures Width(ts, i + 1) == Width(ts, i) + |ts[i]|
  {
    assert ts[..i + 1] == ts[..i] + [ts[i]];
    ConcatAppend(ts[..i], [ts[i]]);
  }

  lemma {:induction false} WidthMonotone(ts: seq<string>, i: nat, j: nat)
    requires i <= j <= |ts|
    ensures Width(ts, i) <= Width(ts, j)
    decreases j - i
  {
    if i < j {
      WidthStep(ts, i);
      WidthMonotone(ts, i + 1, j);
    }
  }

  /** The scan of `token_at`, from token `i` with `passed` characters
      behind it. */
  function TokenAtFrom(ts: seq<string>, c: nat, i: nat, passed: nat): (r: Option<Position>)
    requires i <= |ts| && passed == Width(ts, i) && passed <= c
    ensures r.None? <==> c >= Width(ts, |ts|)
    ensures r.Some? ==>
              && i <= r.value.token < |ts|
              && r.value.offset < |ts[r.value.token]|
              && Width(ts, r.value.token) + r.value.offset == c
    decreases |ts| - i
  {
    if i == |ts| then
      assert ts[..i] == ts;
      None
    else
      WidthStep(ts, i);
      WidthMonotone(ts, i + 1, |ts|);
      var passed' := passed + |ts[i]|;
      if passed' > c then Some(Position(i, c - passed))
      else TokenAtFrom(ts, c, i + 1, passed')
  }

  /** `token_at`: the token holding character `c` of the concatenated texts
      and the offset of that character inside it; none past the end. */
  function TokenAt(ts: seq<string>, c: nat): (r: Option<Position>)
    ensures r.None? <==> c >= |Concat(ts)|
    ensures r.Some? ==>
              && r.value.token < |ts|
              && r.value.offset < |ts[r.value.token]|
              && Width(ts, r.value.token) + r.value.offset == c
  {
    assert ts[..0] == [] && ts[..|ts|] == ts;
    TokenAtFrom(ts, c, 0, 0)
  }

  /** A later character never lies in an earlier token. */
  lemma TokenAtMonotone(ts: seq<string>, c: nat, d: nat, p: Position, q: Position)
    requires c <= d
    requires TokenAt(ts, c) == Some(p) && TokenAt(ts, d) == Some(q)
    ensures p.token <= q.token
  {
    if q.token < p.token {
      WidthStep(ts, q.token);
      WidthMonotone(ts, q.token + 1, p.token);
    }
  }

  /** The token range and replacement text an edit finally operates on,
      once the absorbing rules of `modify_tokens` have run. */
  datatype Extent = Extent(from: nat, to: nat, text: string)

  lemma TextSlices(ts: seq<Token>, a: nat, b: nat, c: nat)
    requires a <= b <= c <= |ts|
    ensures Text(ts[a..c]) == Text(ts[a..b]) + Text(ts[b..c])
  {
    assert ts[a..c] == ts[a..b] + ts[b..c];
    TextAppend(ts[a..b], ts[b..c]);
  }

  lemma TextSingle(ts: seq<Token>, a: nat, b: nat)
    requires a < |ts| && b == a + 1
    ensures Text(ts[a..b]) == ts[a].text
  {
    var x := ts[a].text;
    assert Texts(ts[a..b]) == [x];
    assert Concat([x]) == x + Concat([]);
  }

  /** Absorbing the token `p` just before `from`. */
  lemma AbsorbLeftText(ts: seq<Token>, f: nat, p: nat, from: nat, to: nat, t: nat, text: string)
    requires p + 1 == from && f <= p && from <= to <= t <= |ts|
    ensures Text(ts[f..p]) + (ts[p].text + text) + Text(ts[to..t])
            == Text(ts[f..from]) + text + Text(ts[to..t])
  {
    TextSlices(ts, f, p, from);
    TextSingle(ts, p, from);
  }

  /** Absorbing the token `to`, which ends before `q`. */
  lemma AbsorbRightText(ts: seq<Token>, f: nat, from: nat, to: nat, q: nat, t: nat, text: string)
    requires q == to + 1 && f <= from <= to && q <= t <= |ts|
    ensures Text(ts[f..from]) + (text + ts[to].text) + Text(ts[q..t])
            == Text(ts[f..from]) + text + Text(ts[to..t])
  {
    TextSlices(ts, to, q, t);
    TextSingle(ts, to, q);
  }

  /** The recursion of `modify_tokens`: a whitespace-only replacement
      absorbs the previous token, or the next one at the start; one not
      ending in whitespace absorbs the next token. It stops with an extent
      none of these rules applies to. */
  function Absorb(g: Graph, from: nat, to: nat, text: string): (e: Extent)
    requires from <= to <= |g.target|
    ensures e.from <= from && to <= e.to <= |g.target|
    ensures !(OnlySpace(e.text) && (e.from > 0 || e.to < |g.target|))
    ensures !(EndsInWord(e.text) && e.to < |g.target|)
    decreases from + (|g.target| - to)
  {
    if OnlySpace(text) && from > 0 then
      Absorb(g, from - 1, to, g.target[from - 1].text + text)
    else if OnlySpace(text) && to < |g.target| then
      Absorb(g, from, to + 1, text + g.target[to].text)
    else if EndsInWord(text) && to < |g.target| then
      Absorb(g, from, to + 1, text + g.target[to].text)
    else
      Extent(from, to, text)
  }

  /** The absorbed text is the replacement with the absorbed neighbours'
      texts around it. */
  lemma {:induction false} AbsorbText(g: Graph, from: nat, to: nat, text: string)
    requires from <= to <= |g.target|
    ensures var e := Absorb(g, from, to, text);
            e.text == Text(g.target[e.from..from]) + text + Text(g.target[to..e.to])
    decreases from + (|g.target| - to)
  {
    if OnlySpace(text) && from > 0 {
      var p := from - 1;
      AbsorbText(g, p, to, g.target[p].text + text);
      AbsorbLeft(g, p, from, to, text);
    } else if OnlySpace(text) && to < |g.target| {
      var q := to + 1;
      AbsorbText(g, from, q, text + g.target[to].text);
      AbsorbRight(g, from, to, q, text);
    } else if EndsInWord(text) && to < |g.target| {
      var q := to + 1;
      AbsorbText(g, from, q, text + g.target[to].text);
      AbsorbRight(g, from, to, q, text);
    } else {
      assert g.target[from..from] == [] && g.target[to..to] == [];
    }
  }

  /** The absorbed text when the replacement takes in the token `p` before
      `from`. */
  lemma AbsorbLeft(g: Graph, p: nat, from: nat, to: nat, text: string)
    requires OnlySpace(text) && p + 1 == from <= to <= |g.target|
    requires var e := Absorb(g, p, to, g.target[p].text + text);
             e.text == Text(g.target[e.from..p]) + (g.target[p].text + text) + Text(g.target[to..e.to])
    ensures var e := Absorb(g, from, to, text);
            e.text == Text(g.target[e.from..from]) + text + Text(g.target[to..e.to])
  {
    var e := Absorb(g, p, to, g.target[p].text + text);
    assert Absorb(g, from, to, text) == e;
    AbsorbLeftText(g.target, e.from, p, from, to, e.to, text);
  }

  /** The absorbed text when the replacement takes in the token `to`, which
      ends before `q`. */
  lemma AbsorbRight(g: Graph, from: nat, to: nat, q: nat, text: string)
    requires !(OnlySpace(text) && from > 0) && (OnlySpace(text) || EndsInWord(text))
    requires from <= to && q == to + 1 <= |g.target|
    requires var e := Absorb(g, from, q, text + g.target[to].text);
             e.text == Text(g.target[e.from..from]) + (text + g.target[to].text) + Text(g.target[q..e.to])
    ensures var e := Absorb(g, from, to, text);
            e.text == Text(g.target[e.from..from]) + text + Text(g.target[to..e.to])
  {
    var e := Absorb(g, from, q, text + g.target[to].text);
    assert Absorb(g, from, to, text) == e;
    AbsorbRightText(g.target, e.from, from, to, q, e.to, text);
  }

  /** Where the absorbing stops at once: none of its three rules applies. */
  lemma AbsorbStop(g: Graph, from: nat, to: nat, text: string)
    requires from <= to <= |g.target|
    requires !(OnlySpace(text) && from > 0)
    requires !(OnlySpace(text) && to < |g.target|)
    requires !(EndsInWord(text) && to < |g.target|)
    ensures Absorb(g, from, to, text) == Extent(from, to, text)
  {
  }

  /** On a well-shaped target the absorbing takes at most one neighbour:
      the previous token when the replacement is only whitespace and there
      is one, otherwise the next token when the replacement is only
      whitespace or ends in a word and there is one. */
  lemma AbsorbReach(g: Graph, from: nat, to: nat, text: string)
    requires from <= to <= |g.target|
    requires Shaped(Texts(g.target))
    ensures var e := Absorb(g, from, to, text);
            && from <= e.from + 1 && e.to <= to + 1
            && (e.from < from <==> OnlySpace(text) && from > 0)
            && (e.to > to <==>
                  && !(OnlySpace(text) && from > 0)
                  && (OnlySpace(text) || EndsInWord(text))
                  && to < |g.target|)
  {
    var T := g.target;
    if OnlySpace(text) && from > 0 {
      var p := from - 1;
      var x := T[p].text + text;
      NeighbourText(T, p);
      BlankAppend(T[p].text, text);
      assert x[|x| - 1] == text[|text| - 1];
      AbsorbStop(g, p, to, x);
      assert Absorb(g, from, to, text) == Absorb(g, p, to, x);
    } else if (OnlySpace(text) || EndsInWord(text)) && to < |T| {
      var q := to + 1;
      var x := text + T[to].text;
      NeighbourText(T, to);
      BlankAppend(text, T[to].text);
      assert x[|x| - 1] == T[to].text[|T[to].text| - 1];
      AbsorbStop(g, from, q, x);
      assert Absorb(g, from, to, text) == Absorb(g, from, q, x);
    } else {
      AbsorbStop(g, from, to, text);
    }
  }

  /** A token of a well-shaped target holds a word, and ends in whitespace
      unless it is the last. */
  lemma NeighbourText(T: seq<Token>, i: nat)
    requires i < |T| && Shaped(Texts(T))
    ensures !Blank(T[i].text) && |T[i].text| > 0
    ensures i + 1 < |T| ==> EndsInSpace(T[i].text)
  {
    assert Texts(T)[i] == T[i].text;
    TokenNotBlank(T[i].text, i == |T| - 1);
    TokenNonFinal(T[i].text);
  }

  /** Target tokens with created ids `t{base}`, `t{base+1}`, ...: one token
      per text, in order, on ids that are pairwise distinct, on the target
      side and numbered from `base` up. */
  function FreshTokens(texts: seq<string>, base: nat): (r: seq<Token>)
    ensures Texts(r) == texts
    ensures Distinct(Ids(r)) && OnSide(r, Target)
    ensures forall id | id in Ids(r) :: id.num >= base
  {
    seq(|texts|, i requires 0 <= i < |texts| => Token(texts[i], Id(Target, base + i)))
  }

  /** The edge holds at least one removed token id. */
  predicate Touches(e: Edge, removed: set<Id>) {
    exists id | id in e.ids :: id in removed
  }

  /** The edges an edit leaves alone, in their order. */
  function Kept(edges: seq<Edge>, removed: set<Id>): (r: seq<Edge>)
    ensures forall e :: e in r <==> e in edges && !Touches(e, removed)
  {
    if edges == [] then []
    else
      var rest := Kept(edges[1..], removed);
      assert forall e :: e in edges <==> e == edges[0] || e in edges[1..];
      if Touches(edges[0], removed) then rest else [edges[0]] + rest
  }

  /** The kept edges mention only unremoved ids the edges mentioned, and
      no id twice when the edges did not. */
  lemma {:induction false} KeptIds(edges: seq<Edge>, removed: set<Id>)
    ensures forall id | id in AllEdgeIds(Kept(edges, removed)) ::
              id in AllEdgeIds(edges) && id !in removed
    ensures Distinct(AllEdgeIds(edges)) ==> Distinct(AllEdgeIds(Kept(edges, removed)))
  {
    if edges != [] {
      var rest := Kept(edges[1..], removed);
      KeptIds(edges[1..], removed);
      assert AllEdgeIds(edges) == edges[0].ids + AllEdgeIds(edges[1..]);
      DistinctAppend(edges[0].ids, AllEdgeIds(edges[1..]));
      if !Touches(edges[0], removed) {
        assert AllEdgeIds([edges[0]] + rest) == edges[0].ids + AllEdgeIds(rest) by {
          assert ([edges[0]] + rest)[1..] == rest;
        }
        DistinctAppend(edges[0].ids, AllEdgeIds(rest));
      }
    }
  }

  /** The ids of `ids` that are not removed, in order. */
  function Unremoved(ids: seq<Id>, removed: set<Id>): (r: seq<Id>)
    ensures forall id :: id in r <==> id in ids && id !in removed
  {
    if ids == [] then []
    else
      assert forall id :: id in ids <==> id == ids[0] || id in ids[1..];
      (if ids[0] in removed then [] else [ids[0]]) + Unremoved(ids[1..], removed)
  }

  /** The ids of the disturbed edges that are not themselves removed, edge
      by edge. */
  function Survivors(edges: seq<Edge>, removed: set<Id>): (r: seq<Id>)
    ensures forall id :: id in r <==>
              exists k | 0 <= k < |edges| ::
                Touches(edges[k], removed) && id in edges[k].ids && id !in removed
  {
    if edges == [] then []
    else
      var rest := Survivors(edges[1..], removed);
      assert forall k | 1 <= k < |edges| :: edges[k] == edges[1..][k - 1];
      if Touches(edges[0], removed) then Unremoved(edges[0].ids, removed) + rest else rest
  }

  /** The labels of the disturbed edges, edge by edge. */
  function MergedLabels(edges: seq<Edge>, removed: set<Id>): (r: seq<string>)
    ensures forall l :: l in r <==>
              exists k | 0 <= k < |edges| :: Touches(edges[k], removed) && l in edges[k].labels
  {
    if edges == [] then []
    else
      var rest := MergedLabels(edges[1..], removed);
      assert forall k | 1 <= k < |edges| :: edges[k] == edges[1..][k - 1];
      if Touches(edges[0], removed) then edges[0].labels + rest else rest
  }

  /** The ids of the target tokens in `from..to`. */
  function RemovedIds(ts: seq<Token>, from: nat, to: nat): set<Id>
    requires from <= to <= |ts|
  {
    set k | from <= k < to :: ts[k].id
  }

  /** The edge reconciliation of `modify_tokens`: edges holding no removed
      id stay as they are, in order; all others are folded into one new edge
      over the created ids and their unremoved ids, carrying all their labels;
      that edge is added even when it is empty. */
  function Reconcile(edges: seq<Edge>, removed: set<Id>, created: seq<Id>): seq<Edge> {
    Kept(edges, removed) + [MkEdge(AddAll(created, Survivors(edges, removed)), AddAll([], MergedLabels(edges, removed)))]
  }

  /** What the reconciliation keeps and what the merged edge holds. */
  lemma ReconcileEdges(edges: seq<Edge>, removed: set<Id>, created: seq<Id>)
    ensures var r := Reconcile(edges, removed, created);
            && |r| == |Kept(edges, removed)| + 1 && r[..|r| - 1] == Kept(edges, removed)
            && (forall e :: e in r[..|r| - 1] <==> e in edges && !Touches(e, removed))
            && (forall id :: id in r[|r| - 1].ids <==>
                  || id in created
                  || exists k | 0 <= k < |edges| ::
                       Touches(edges[k], removed) && id in edges[k].ids && id !in removed)
            && (forall l :: l in MergedLabels(edges, removed) <==> l in r[|r| - 1].labels)
            && (Distinct(created) ==> Distinct(r[|r| - 1].ids))
            && Distinct(r[|r| - 1].labels)
            && r[|r| - 1].id == EdgeName(r[|r| - 1].ids)
            && |created| <= |r[|r| - 1].ids| && r[|r| - 1].ids[..|created|] == created
            && r[|r| - 1].ids == AddAll(created, Survivors(edges, removed))
  {
    var r := Reconcile(edges, removed, created);
    assert r[..|r| - 1] == Kept(edges, removed);
  }

  /** When the created ids are distinct, and so are the survivors, and the
      two share no id, the merged edge lists the created ids and then the
      survivors edge by edge, in their order. */
  lemma ReconcileOrder(edges: seq<Edge>, removed: set<Id>, created: seq<Id>)
    requires Distinct(created) && Distinct(Survivors(edges, removed))
    requires forall id | id in created :: id !in Survivors(edges, removed)
    ensures var r := Reconcile(edges, removed, created);
            r[|r| - 1].ids == created + Survivors(edges, removed)
  {
    var xs := Survivors(edges, removed);
    AddAllFresh(created, xs);
  }

  /** Replacing the middle token of a three-token `init` graph by two
      created tokens keeps the first and last edge and merges the middle
      one into an edge over the created ids followed by the middle source
      id, named `t3-t4-s1`. The three edges have the shape `InitFromPairs`
      gives the edges of `init`. */
  lemma ReconcileExample(e0: Edge, e1: Edge, e2: Edge)
    requires e0.ids == [Id(Source, 0), Id(Target, 0)]
    requires e1.ids == [Id(Source, 1), Id(Target, 1)] && e1.labels == []
    requires e2.ids == [Id(Source, 2), Id(Target, 2)]
    ensures Reconcile([e0, e1, e2], {Id(Target, 1)}, [Id(Target, 3), Id(Target, 4)]) ==
              [e0, e2, Edge("t3-t4-s1", [Id(Target, 3), Id(Target, 4), Id(Source, 1)], [])]
  {
    var removed := {Id(Target, 1)};
    PairUntouched(e0, 0, removed);
    PairUntouched(e2, 2, removed);
    ReconcileThree(e0, e1, e2, removed, [Id(Target, 3), Id(Target, 4)]);
    assert [e1.ids[0]] == [Id(Source, 1)];
    ExampleMerged();
  }

  /** Reconciling three edges of which only the middle one, a pair, loses
      its second id. */
  lemma ReconcileThree(e0: Edge, e1: Edge, e2: Edge, removed: set<Id>, created: seq<Id>)
    requires !Touches(e0, removed) && !Touches(e2, removed)
    requires |e1.ids| == 2 && e1.ids[0] !in removed && e1.ids[1] in removed && e1.labels == []
    ensures Reconcile([e0, e1, e2], removed, created) ==
              [e0, e2, MkEdge(AddAll(created, [e1.ids[0]]), [])]
  {
    ThreeEdges(e0, e1, e2, removed);
    assert AddAll([], MergedLabels([e0, e1, e2], removed)) == [];
  }

  lemma PairUntouched(e: Edge, k: nat, removed: set<Id>)
    requires e.ids == [Id(Source, k), Id(Target, k)]
    requires Id(Source, k) !in removed && Id(Target, k) !in removed
    ensures !Touches(e, removed)
  {
  }

  lemma ExampleMerged()
    ensures MkEdge(AddAll([Id(Target, 3), Id(Target, 4)], [Id(Source, 1)]), []) ==
              Edge("t3-t4-s1", [Id(Target, 3), Id(Target, 4), Id(Source, 1)], [])
  {
    var t3, t4, s1 := Id(Target, 3), Id(Target, 4), Id(Source, 1);
    AddAllFresh([t3, t4], [s1]);
    assert [t3, t4] + [s1] == [t3, t4, s1];
    ExampleName();
  }

  lemma ExampleName()
    ensures EdgeName([Id(Target, 3), Id(Target, 4), Id(Source, 1)]) == "t3-t4-s1"
  {
    var ns := Names([Id(Target, 3), Id(Target, 4), Id(Source, 1)]);
    assert Name(Id(Target, 3)) == "t3" && Name(Id(Target, 4)) == "t4" && Name(Id(Source, 1)) == "s1";
    assert ns == ["t3", "t4", "s1"];
    assert ns[1..] == ["t4", "s1"] && ns[1..][1..] == ["s1"];
  }

  /** The reconciliation steps over three edges of which only the middle
      one is touched. */
  lemma ThreeEdges(e0: Edge, e1: Edge, e2: Edge, removed: set<Id>)
    requires !Touches(e0, removed) && !Touches(e2, removed)
    requires |e1.ids| == 2 && e1.ids[0] !in removed && e1.ids[1] in removed && e1.labels == []
    ensures Kept([e0, e1, e2], removed) == [e0, e2]
    ensures Survivors([e0, e1, e2], removed) == [e1.ids[0]]
    ensures MergedLabels([e0, e1, e2], removed) == []
  {
    var edges, l1, l2 := [e0, e1, e2], [e1, e2], [e2];
    assert edges[1..] == l1 && l1[1..] == l2 && l2[1..] == [];
    assert Touches(e1, removed) by { assert e1.ids[1] in e1.ids; }
    assert Kept(l2, removed) == [e2];
    assert Kept(l1, removed) == [e2];
    assert MergedLabels(l2, removed) == [];
    assert MergedLabels(l1, removed) == [];
    var ids := e1.ids;
    assert ids[1..][1..] == [];
    assert Unremoved(ids[1..], removed) == [];
    assert Unremoved(ids, removed) == [ids[0]];
    assert Survivors(l2, removed) == [];
    assert Survivors(l1, removed) == [ids[0]];
  }

  /** The splice `modify_tokens` ends with: the tokens of the extent are
      replaced by the re-tokenized text under created ids, and the edges are
      reconciled. */
  function SpliceTokens(g: Graph, e: Extent): Graph
    requires e.from <= e.to <= |g.target|
  {
    var created := FreshTokens(Tokenize(e.text), NextId(Ids(g.target)));
    Graph(
      g.source,
      g.target[..e.from] + created + g.target[e.to..],
      Reconcile(g.edges, RemovedIds(g.target, e.from, e.to), Ids(created)))
  }

  /** `modify_tokens`: replaces target tokens `from..to` by `text`. The
      source is untouched; the target keeps a prefix and a suffix of its
      tokens, with their ids, around tokens whose ids exceed every numeric
      suffix of the old target ids. */
  function ModifyTokens(g: Graph, from: nat, to: nat, text: string): (r: Graph)
    requires from <= to <= |g.target|
    ensures r.source == g.source
  {
    SpliceTokens(g, Absorb(g, from, to, text))
  }

  /** `modify_tokens` keeps a prefix and a suffix of the target, with their
      ids, around tokens whose ids exceed every numeric suffix of the old
      target ids; the kept prefix and suffix end where the absorbing of
      neighbours stopped. */
  lemma ModifyTokensFrame(g: Graph, from: nat, to: nat, text: string)
    requires from <= to <= |g.target|
    ensures var r := ModifyTokens(g, from, to, text);
            var e := Absorb(g, from, to, text);
            var created := r.target[e.from..|r.target| - (|g.target| - e.to)];
            && e.from <= |r.target| - (|g.target| - e.to) <= |r.target|
            && r.target[..e.from] == g.target[..e.from]
            && r.target[|r.target| - (|g.target| - e.to)..] == g.target[e.to..]
            && Texts(created) == Tokenize(e.text)
            && forall k | 0 <= k < |created| :: created[k].id == Id(Target, NextId(Ids(g.target)) + k)
  {
    var e := Absorb(g, from, to, text);
    var created := FreshTokens(Tokenize(e.text), NextId(Ids(g.target)));
    var r := ModifyTokens(g, from, to, text);
    assert r.target == g.target[..e.from] + created + g.target[e.to..];
    assert r.target[e.from..|r.target| - (|g.target| - e.to)] == created;
  }

  /** `b` keeps the elements of `a` before `from - 1` at their places from
      the start, and those after `to` at their places from the end. */
  predicate KeepsOutside(a: seq<Token>, b: seq<Token>, from: nat, to: nat) {
    && (forall k | 0 <= k < |a| && k + 1 < from :: k < |b| && b[k] == a[k])
    && (forall k | to < k < |a| :: |a| - k <= |b| && b[|b| - (|a| - k)] == a[k])
  }

  /** On a well-shaped target `modify_tokens` keeps every token before
      `from - 1` and every token after `to`, counted from the end. */
  lemma ModifyTokensReach(g: Graph, from: nat, to: nat, text: string)
    requires from <= to <= |g.target|
    requires Shaped(Texts(g.target))
    ensures KeepsOutside(g.target, ModifyTokens(g, from, to, text).target, from, to)
  {
    var r := ModifyTokens(g, from, to, text);
    var e := Absorb(g, from, to, text);
    AbsorbReach(g, from, to, text);
    ModifyTokensFrame(g, from, to, text);
    KeptEnds(g.target, r.target, e.from, e.to, from, to);
  }

  /** A sequence that keeps the first `f` and the last `|a| - t` elements
      of `a`, with `f` at least `from - 1` and `t` at most `to + 1`, keeps
      what lies outside `from - 1 .. to`. */
  lemma KeptEnds(a: seq<Token>, b: seq<Token>, f: nat, t: nat, from: nat, to: nat)
    requires f <= t <= |a| && f <= |b| - (|a| - t) <= |b|
    requires from <= f + 1 && t <= to + 1
    requires b[..f] == a[..f] && b[|b| - (|a| - t)..] == a[t..]
    ensures KeepsOutside(a, b, from, to)
  {
    forall k | 0 <= k < |a| && k + 1 < from ensures k < |b| && b[k] == a[k] {
      assert b[..f][k] == a[..f][k];
    }
    forall k | to < k < |a| ensures |a| - k <= |b| && b[|b| - (|a| - k)] == a[k] {
      assert b[|b| - (|a| - t)..][k - t] == a[t..][k - t];
    }
  }

  /** Both ends of a `modify` edit resolved to token positions: `first`
      holds the first replaced character and `last` the character after the
      replaced ones. */
  datatype Span = Span(first: Position, last: Position)

  predicate ValidSpan(ts: seq<string>, s: Span) {
    && s.first.token <= s.last.token < |ts|
    && s.first.offset < |ts[s.first.token]|
    && s.last.offset < |ts[s.last.token]|
  }

  /** The two `token_at` lookups of `modify`; none when either character
      offset is past the end of the text. */
  function Locate(ts: seq<string>, from: nat, to: nat): (r: Option<Span>)
    requires from <= to
    ensures r.None? <==> to >= |Concat(ts)|
    ensures r.Some? ==>
              && ValidSpan(ts, r.value)
              && Width(ts, r.value.first.token) + r.value.first.offset == from
              && Width(ts, r.value.last.token) + r.value.last.offset == to
  {
    match TokenAt(ts, from)
    case None => None
    case Some(p) =>
      match TokenAt(ts, to)
      case None => None
      case Some(q) =>
        TokenAtMonotone(ts, from, to, p, q);
        Some(Span(p, q))
  }

  /** The text `modify` hands to `modify_tokens`, which replaces the tokens
      from the one holding the first replaced character through the one
      holding the character after the edit: `text` between the part of the
      first token before the edit and the part of the last token after it. */
  function Replacement(T: seq<Token>, s: Span, text: string): string
    requires ValidSpan(Texts(T), s)
  {
    T[s.first.token].text[..s.first.offset] + text + T[s.last.token].text[s.last.offset..]
  }

  /** `modify_tokens` over the tokens `first..last`, both ends included. */
  function ModifyAt(g: Graph, first: nat, last: nat, x: string): Graph
    requires first <= last < |g.target|
  {
    ModifyTokens(g, first, last + 1, x)
  }

  /** `modify`: replaces characters `from..to` of the target text. Both
      offsets must fall inside the text. */
  function Modify(g: Graph, from: nat, to: nat, text: string): (r: Result<Graph, Fault>)
    requires from <= to
    ensures r.Failure? <==> to >= |TargetText(g)|
    ensures r.Success? ==> r.value.source == g.source
  {
    match Locate(Texts(g.target), from, to)
    case None => Failure(OutOfBounds)
    case Some(s) => Success(ModifyAt(g, s.first.token, s.last.token, Replacement(g.target, s, text)))
  }

  /** The text of a spliced token sequence. */
  lemma SpliceText(T: seq<Token>, f: nat, t: nat, created: seq<Token>)
    requires f <= t <= |T|
    ensures Text(T[..f] + created + T[t..]) == Text(T[..f]) + Text(created) + Text(T[t..])
  {
    TextAppend(T[..f] + created, T[t..]);
    TextAppend(T[..f], created);
  }

  /** The text an absorbed extent spans, around the kept tokens, is the
      text the edit asked for. */
  lemma AbsorbedText(T: seq<Token>, f: nat, from: nat, to: nat, t: nat, text: string, x: string)
    requires f <= from <= to <= t <= |T|
    requires x == Text(T[f..from]) + text + Text(T[to..t])
    ensures Text(T[..f]) + x + Text(T[t..]) == Text(T[..from]) + text + Text(T[to..])
  {
    assert T[..from] == T[0..from] && T[..f] == T[0..f];
    assert T[to..] == T[to..|T|] && T[t..] == T[t..|T|];
    TextSlices(T, 0, f, from);
    TextSlices(T, to, t, |T|);
  }

  /** When the absorbed text is blank, nothing was absorbed. */
  lemma AbsorbedBlank(T: seq<Token>, f: nat, from: nat, to: nat, t: nat, text: string, x: string)
    requires f <= from <= to <= t <= |T|
    requires Wordy(T)
    requires x == Text(T[f..from]) + text + Text(T[to..t])
    requires Blank(x)
    ensures f == from && t == to && x == text
  {
    BlankAppend(Text(T[f..from]) + text, Text(T[to..t]));
    BlankAppend(Text(T[f..from]), text);
    WordyBlank(T[f..from]);
    WordyBlank(T[to..t]);
  }

  /** The text a target keeps of `s` once it is tokenized: all of it,
      unless it is only whitespace. */
  function Collapsed(s: string): string {
    if Blank(s) then "" else s
  }

  /** The old text with the text of tokens `from..to` swapped for `text`,
      or nothing when the whole text would then be whitespace. */
  function Spliced(T: seq<Token>, from: nat, to: nat, text: string): string
    requires from <= to <= |T|
  {
    if from == 0 && to == |T| && Blank(text) then ""
    else Text(T[..from]) + text + Text(T[to..])
  }

  /** The target text after `modify_tokens` is the old text with the
      replaced tokens' text swapped for `text`, except that an edit leaving
      nothing but whitespace in the whole target leaves no tokens at all. */
  lemma ModifyTokensText(g: Graph, from: nat, to: nat, text: string)
    requires from <= to <= |g.target|
    requires Shaped(Texts(g.target))
    ensures TargetText(ModifyTokens(g, from, to, text)) == Spliced(g.target, from, to, text)
  {
    ModifyTokensTarget(g, from, to, text);
    ExtentText(g, from, to, text);
  }

  /** The text of the target `modify_tokens` builds from its absorbed
      extent. */
  lemma ExtentText(g: Graph, from: nat, to: nat, text: string)
    requires from <= to <= |g.target|
    requires Shaped(Texts(g.target))
    ensures var e := Absorb(g, from, to, text);
            Text(g.target[..e.from] + FreshTokens(Tokenize(e.text), NextId(Ids(g.target))) + g.target[e.to..]) ==
              Spliced(g.target, from, to, text)
  {
    var T := g.target;
    var e := Absorb(g, from, to, text);
    AbsorbText(g, from, to, text);
    var created := FreshTokens(Tokenize(e.text), NextId(Ids(T)));
    assert Texts(created) == Tokenize(e.text);
    TokenizeSpec(e.text);
    ShapedWordy(T);
    AbsorbSpliceText(T, e.from, from, to, e.to, text, e.text, created);
  }

  /** The target `modify_tokens` builds, in terms of its absorbed extent. */
  lemma ModifyTokensTarget(g: Graph, from: nat, to: nat, text: string)
    requires from <= to <= |g.target|
    ensures var e := Absorb(g, from, to, text);
            ModifyTokens(g, from, to, text).target ==
              g.target[..e.from] + FreshTokens(Tokenize(e.text), NextId(Ids(g.target))) + g.target[e.to..]
  {
  }

  lemma AbsorbSpliceText(T: seq<Token>, f: nat, from: nat, to: nat, t: nat, text: string, x: string,
                         created: seq<Token>)
    requires f <= from <= to <= t <= |T|
    requires Wordy(T)
    requires x == Text(T[f..from]) + text + Text(T[to..t])
    requires !(OnlySpace(x) && (f > 0 || t < |T|))
    requires Text(created) == if Blank(x) then "" else x
    ensures Text(T[..f] + created + T[t..]) ==
              if from == 0 && to == |T| && Blank(text) then ""
              else Text(T[..from]) + text + Text(T[to..])
  {
    SpliceText(T, f, t, created);
    if Blank(x) {
      AbsorbedBlank(T, f, from, to, t, text, x);
      BlankSplice(T, from, to, text);
    } else {
      WordySpliceText(T, f, from, to, t, text, x);
    }
  }

  /** The non-blank case of `AbsorbSpliceText`. */
  lemma WordySpliceText(T: seq<Token>, f: nat, from: nat, to: nat, t: nat, text: string, x: string)
    requires f <= from <= to <= t <= |T|
    requires x == Text(T[f..from]) + text + Text(T[to..t])
    requires !Blank(x)
    ensures Text(T[..f]) + x + Text(T[t..]) ==
              if from == 0 && to == |T| && Blank(text) then ""
              else Text(T[..from]) + text + Text(T[to..])
  {
    AbsorbedText(T, f, from, to, t, text, x);
    if from == 0 && to == |T| {
      assert T[0..0] == [] && T[|T|..|T|] == [];
      assert x == text;
    }
  }

  lemma BlankSplice(T: seq<Token>, from: nat, to: nat, text: string)
    requires from <= to <= |T| && Blank(text)
    requires !(OnlySpace(text) && (from > 0 || to < |T|))
    ensures Text(T[..from]) + "" + Text(T[to..]) ==
              if from == 0 && to == |T| then ""
              else Text(T[..from]) + text + Text(T[to..])
  {
    assert text == "" || (from == 0 && to == |T|);
  }

  lemma IdsSplit(S: seq<Token>, T: seq<Token>, f: nat, t: nat, mid: seq<Token>)
    requires f <= t <= |T|
    ensures Ids(S + (T[..f] + mid + T[t..])) == Ids(S) + Ids(T[..f]) + Ids(mid) + Ids(T[t..])
  {
    IdsAppend(S, T[..f] + mid + T[t..]);
    IdsAppend(T[..f] + mid, T[t..]);
    IdsAppend(T[..f], mid);
  }

  /** Splicing in new, distinct ids keeps the token ids distinct. */
  lemma SpliceDistinct(S: seq<Token>, T: seq<Token>, f: nat, t: nat, created: seq<Token>)
    requires f <= t <= |T|
    requires Distinct(Ids(S + T)) && Distinct(Ids(created))
    requires forall id | id in Ids(created) :: id !in Ids(S + T)
    ensures Distinct(Ids(S + (T[..f] + created + T[t..])))
  {
    assert T == T[..f] + T[f..t] + T[t..];
    IdsSplit(S, T, f, t, T[f..t]);
    IdsSplit(S, T, f, t, created);
    var x := Ids(S) + Ids(T[..f]);
    var y := Ids(T[t..]);
    DistinctReplace(x, Ids(T[f..t]), y, Ids(created));
  }

  /** Created ids are target ids above every numeric suffix of the target,
      so they collide with no token of the graph. */
  lemma CreatedIdsNew(S: seq<Token>, T: seq<Token>, texts: seq<string>)
    requires OnSide(S, Source)
    ensures var created := Ids(FreshTokens(texts, NextId(Ids(T))));
            && Distinct(created)
            && forall id | id in created :: id !in Ids(S + T)
  {
    var n := NextId(Ids(T));
    var created := Ids(FreshTokens(texts, n));
    IdsAppend(S, T);
    forall id | id in created ensures id !in Ids(S + T) {
      var i :| 0 <= i < |created| && created[i] == id;
      assert id == Id(Target, n + i);
      assert forall k | 0 <= k < |S| :: Ids(S)[k].side == Source;
      assert forall k | 0 <= k < |T| :: Ids(T)[k].num < n;
    }
  }

  lemma SpliceSided(T: seq<Token>, f: nat, t: nat, created: seq<Token>)
    requires f <= t <= |T|
    requires OnSide(T, Target) && OnSide(created, Target)
    ensures OnSide(T[..f] + created + T[t..], Target)
  {
    var r := T[..f] + created + T[t..];
    forall i | 0 <= i < |r| ensures r[i].id.side == Target {
      if i < f {
      } else if i < f + |created| {
        assert r[i] == created[i - f];
      } else {
        assert r[i] == T[t + (i - f - |created|)];
      }
    }
  }

  /** The splice keeps the target well-shaped when the replacement does not
      end inside a word before the end, and, when it is appended after the
      last token, that token ends in whitespace. */
  lemma SpliceShaped(T: seq<Token>, f: nat, t: nat, s: string, created: seq<Token>)
    requires f <= t <= |T|
    requires Shaped(Texts(T))
    requires f < |T| || T == [] || EndsInSpace(T[|T| - 1].text)
    requires !(EndsInWord(s) && t < |T|)
    requires Texts(created) == Tokenize(s)
    ensures Shaped(Texts(T[..f] + created + T[t..]))
  {
    var ts := Texts(T);
    var tok := Tokenize(s);
    TokenizeSpec(s);
    TextsAppend(T[..f] + created, T[t..]);
    TextsAppend(T[..f], created);
    assert Texts(T[..f]) == ts[..f];
    assert Texts(T[t..]) == ts[t..];
    ClosedPrefix(ts, f);
    if t < |T| {
      TokenizeClosed(s);
      ClosedAppend(ts[..f], tok);
      ShapedSuffix(ts, t);
      ShapedAppend(ts[..f] + tok, ts[t..]);
    } else {
      assert ts[t..] == [];
      ShapedAppend(ts[..f], tok);
      assert ts[..f] + tok + ts[t..] == ts[..f] + tok;
    }
  }

  /** Under disjoint edges, no id of a kept edge is listed by a disturbed
      edge: the kept edges and the merged edge share no id. */
  lemma KeptApart(edges: seq<Edge>, removed: set<Id>, id: Id)
    requires Distinct(AllEdgeIds(edges))
    requires id in AllEdgeIds(Kept(edges, removed))
    ensures forall k | 0 <= k < |edges| && Touches(edges[k], removed) :: id !in edges[k].ids
  {
    var kept := Kept(edges, removed);
    var kk :| 0 <= kk < |kept| && id in kept[kk].ids;
    assert kept[kk] in kept;
    var j :| 0 <= j < |edges| && edges[j] == kept[kk];
    DisjointIffDistinct(edges);
    forall k | 0 <= k < |edges| && Touches(edges[k], removed) ensures id !in edges[k].ids {
      assert k != j;
    }
  }

  /** Every id listed by some edge is in `AllEdgeIds`. */
  lemma Listed(edges: seq<Edge>, k: nat, id: Id)
    requires k < |edges| && id in edges[k].ids
    ensures id in AllEdgeIds(edges)
  {
  }

  /** An id of the old graph that was not removed is still a token id after
      the splice. */
  lemma SpliceKeeps(S: seq<Token>, T: seq<Token>, f: nat, t: nat, created: seq<Token>, id: Id)
    requires f <= t <= |T|
    requires id in Ids(S + T) && id !in RemovedIds(T, f, t)
    ensures id in Ids(S + (T[..f] + created + T[t..]))
  {
    assert T == T[..f] + T[f..t] + T[t..];
    IdsSplit(S, T, f, t, T[f..t]);
    IdsSplit(S, T, f, t, created);
  }

  /** The edge reconciliation keeps edge ids distinct and known, given the
      splice of `created` over tokens `f..t`. */
  lemma ReconcileInvariant(S: seq<Token>, T: seq<Token>, f: nat, t: nat, edges: seq<Edge>, created: seq<Token>)
    requires f <= t <= |T|
    requires Distinct(AllEdgeIds(edges))
    requires forall id | id in AllEdgeIds(edges) :: id in Ids(S + T)
    requires Distinct(Ids(created))
    requires forall id | id in Ids(created) :: id !in Ids(S + T)
    ensures var r := Reconcile(edges, RemovedIds(T, f, t), Ids(created));
            && Distinct(AllEdgeIds(r))
            && forall id | id in AllEdgeIds(r) :: id in Ids(S + (T[..f] + created + T[t..]))
  {
    var removed := RemovedIds(T, f, t);
    var r := Reconcile(edges, removed, Ids(created));
    var kept := Kept(edges, removed);
    var merged := r[|r| - 1];
    ReconcileEdges(edges, removed, Ids(created));
    assert r == kept + [merged];
    AllEdgeIdsAppend(kept, [merged]);
    assert AllEdgeIds([merged]) == merged.ids + AllEdgeIds([]) == merged.ids;
    assert AllEdgeIds(r) == AllEdgeIds(kept) + merged.ids;
    assert Distinct(merged.ids);
    KeptIds(edges, removed);
    forall id | id in AllEdgeIds(kept) ensures id !in merged.ids {
      KeptApart(edges, removed, id);
    }
    DistinctAppend(AllEdgeIds(kept), merged.ids);
    IdsSplit(S, T, f, t, created);
    forall id | id in AllEdgeIds(r) ensures id in Ids(S + (T[..f] + created + T[t..])) {
      if id in AllEdgeIds(kept) {
        SpliceKeeps(S, T, f, t, created, id);
      } else if id !in Ids(created) {
        var k :| 0 <= k < |edges| && Touches(edges[k], removed) && id in edges[k].ids && id !in removed;
        Listed(edges, k, id);
        SpliceKeeps(S, T, f, t, created, id);
      }
    }
  }

  /** The edge reconciliation keeps every token in some edge. */
  lemma ReconcileCovered(S: seq<Token>, T: seq<Token>, f: nat, t: nat, edges: seq<Edge>, created: seq<Token>)
    requires f <= t <= |T|
    requires Distinct(Ids(S + T))
    requires forall id | id in Ids(S + T) :: id in AllEdgeIds(edges)
    ensures var r := Reconcile(edges, RemovedIds(T, f, t), Ids(created));
            forall id | id in Ids(S + (T[..f] + created + T[t..])) :: id in AllEdgeIds(r)
  {
    var removed := RemovedIds(T, f, t);
    IdsSplit(S, T, f, t, created);
    forall id | id in Ids(S + (T[..f] + created + T[t..]))
      ensures id in AllEdgeIds(Reconcile(edges, removed, Ids(created)))
    {
      if id in Ids(created) {
        ReconcileHasCreated(edges, removed, Ids(created), id);
      } else {
        SpliceOutside(S, T, f, t, id);
        ReconcileKeepsId(edges, removed, Ids(created), id);
      }
    }
  }

  /** Every created id is in the merged edge. */
  lemma ReconcileHasCreated(edges: seq<Edge>, removed: set<Id>, created: seq<Id>, id: Id)
    requires id in created
    ensures id in AllEdgeIds(Reconcile(edges, removed, created))
  {
    var r := Reconcile(edges, removed, created);
    ReconcileEdges(edges, removed, created);
    Listed(r, |r| - 1, id);
  }

  /** An unremoved id of an edge is in a kept edge or in the merged one. */
  lemma ReconcileKeepsId(edges: seq<Edge>, removed: set<Id>, created: seq<Id>, id: Id)
    requires id in AllEdgeIds(edges) && id !in removed
    ensures id in AllEdgeIds(Reconcile(edges, removed, created))
  {
    var r := Reconcile(edges, removed, created);
    ReconcileEdges(edges, removed, created);
    var k :| 0 <= k < |edges| && id in edges[k].ids;
    if Touches(edges[k], removed) {
      Listed(r, |r| - 1, id);
    } else {
      assert edges[k] in r[..|r| - 1];
      var kk :| 0 <= kk < |r| - 1 && r[kk] == edges[k];
      Listed(r, kk, id);
    }
  }

  /** A token id outside the replaced range is not removed. */
  lemma SpliceOutside(S: seq<Token>, T: seq<Token>, f: nat, t: nat, id: Id)
    requires f <= t <= |T|
    requires Distinct(Ids(S + T))
    requires id in Ids(S) + Ids(T[..f]) + Ids(T[t..])
    ensures id in Ids(S + T) && id !in RemovedIds(T, f, t)
  {
    assert T == T[..f] + T[f..t] + T[t..];
    IdsSplit(S, T, f, t, T[f..t]);
    var x := Ids(S) + Ids(T[..f]);
    var c := Ids(T[f..t]);
    var y := Ids(T[t..]);
    DistinctAppend(x + c, y);
    DistinctAppend(x, c);
  }

  /** The graph `modify_tokens` builds, in terms of its absorbed extent. */
  lemma ModifyTokensGraph(g: Graph, from: nat, to: nat, text: string)
    requires from <= to <= |g.target|
    ensures var e := Absorb(g, from, to, text);
            var created := FreshTokens(Tokenize(e.text), NextId(Ids(g.target)));
            ModifyTokens(g, from, to, text) ==
              Graph(g.source, g.target[..e.from] + created + g.target[e.to..],
                    Reconcile(g.edges, RemovedIds(g.target, e.from, e.to), Ids(created)))
  {
  }

  /** The splice of an absorbed extent keeps the graph invariant. */
  lemma SpliceInvariant(g: Graph, e: Extent, created: seq<Token>)
    requires e.from <= e.to <= |g.target|
    requires Invariant(g) && Sided(g)
    requires e.from < |g.target| || g.target == [] || EndsInSpace(g.target[|g.target| - 1].text)
    requires !(EndsInWord(e.text) && e.to < |g.target|)
    requires created == FreshTokens(Tokenize(e.text), NextId(Ids(g.target)))
    ensures var r := Graph(g.source, g.target[..e.from] + created + g.target[e.to..],
                           Reconcile(g.edges, RemovedIds(g.target, e.from, e.to), Ids(created)));
            && Invariant(r) && Sided(r)
            && (Covered(g) ==> Covered(r))
  {
    var S, T := g.source, g.target;
    assert Texts(created) == Tokenize(e.text);
    CreatedIdsNew(S, T, Tokenize(e.text));
    SpliceDistinct(S, T, e.from, e.to, created);
    SpliceShaped(T, e.from, e.to, e.text, created);
    SpliceSided(T, e.from, e.to, created);
    ReconcileInvariant(S, T, e.from, e.to, g.edges, created);
    if Covered(g) {
      ReconcileCovered(S, T, e.from, e.to, g.edges, created);
    }
  }

  /** `modify_tokens` keeps the graph invariant, the sides of the ids and
      the coverage of tokens by edges, unless it appends after a last token
      that does not end in whitespace. */
  lemma ModifyTokensInvariant(g: Graph, from: nat, to: nat, text: string)
    requires from <= to <= |g.target|
    requires Invariant(g) && Sided(g)
    requires from < |g.target| || g.target == [] || EndsInSpace(g.target[|g.target| - 1].text)
    ensures Keeps(g, ModifyTokens(g, from, to, text))
  {
    var e := Absorb(g, from, to, text);
    ModifyTokensGraph(g, from, to, text);
    SpliceInvariant(g, e, FreshTokens(Tokenize(e.text), NextId(Ids(g.target))));
  }

  /** The concatenated texts split at offset `off` of string `i`. */
  lemma CharSplit(ts: seq<string>, i: nat, off: nat)
    requires i < |ts| && off <= |ts[i]|
    ensures var c := Width(ts, i) + off;
            && c <= |Concat(ts)|
            && Concat(ts)[..c] == Concat(ts[..i]) + ts[i][..off]
            && Concat(ts)[c..] == ts[i][off..] + Concat(ts[i + 1..])
  {
    assert ts == ts[..i] + ([ts[i]] + ts[i + 1..]);
    ConcatAppend(ts[..i], [ts[i]] + ts[i + 1..]);
    ConcatAppend([ts[i]], ts[i + 1..]);
    assert Concat([ts[i]]) == ts[i] + Concat([]);
    var a, b, z := Concat(ts[..i]), Concat(ts[i + 1..]), ts[i];
    assert Concat(ts) == a + (z[..off] + z[off..]) + b;
    assert a + (z[..off] + z[off..]) + b == (a + z[..off]) + (z[off..] + b);
  }

  /** The texts of a prefix or suffix of tokens. */
  lemma TextsSlices(T: seq<Token>, i: nat)
    requires i <= |T|
    ensures Texts(T[..i]) == Texts(T)[..i] && Texts(T[i..]) == Texts(T)[i..]
  {
  }

  /** `modify` replaces characters `from..to` of the target text by `text`;
      only when the whole text is then whitespace does the target become
      empty. */
  lemma ModifyText(g: Graph, from: nat, to: nat, text: string)
    requires from <= to
    requires Shaped(Texts(g.target))
    ensures Modify(g, from, to, text).Success? ==>
              TargetText(Modify(g, from, to, text).value) ==
                Collapsed(TargetText(g)[..from] + text + TargetText(g)[to..])
  {
    if to < |TargetText(g)| {
      ModifySpanText(g, from, to, text, Locate(Texts(g.target), from, to).value);
    }
  }

  lemma ModifySpanText(g: Graph, from: nat, to: nat, text: string, s: Span)
    requires from <= to && Locate(Texts(g.target), from, to) == Some(s)
    requires Shaped(Texts(g.target))
    ensures Modify(g, from, to, text).Success?
    ensures TargetText(Modify(g, from, to, text).value) ==
              Collapsed(TargetText(g)[..from] + text + TargetText(g)[to..])
  {
    ModifyCall(g, from, to, text, s);
    SpanEditText(g, from, to, text, s);
  }

  lemma SpanEditText(g: Graph, from: nat, to: nat, text: string, s: Span)
    requires from <= to && Locate(Texts(g.target), from, to) == Some(s)
    requires Shaped(Texts(g.target))
    ensures TargetText(ModifyAt(g, s.first.token, s.last.token, Replacement(g.target, s, text))) ==
              Collapsed(TargetText(g)[..from] + text + TargetText(g)[to..])
  {
    var end := s.last.token + 1;
    SpanText(g, s.first.token, s.last.token, end, Replacement(g.target, s, text));
    EditSpan(g, from, to, text, s, end);
  }

  /** The text left for a resolved span is the character-level edit. */
  lemma EditSpan(g: Graph, from: nat, to: nat, text: string, s: Span, end: nat)
    requires from <= to && Locate(Texts(g.target), from, to) == Some(s)
    requires Shaped(Texts(g.target)) && end == s.last.token + 1
    ensures Spliced(g.target, s.first.token, end, Replacement(g.target, s, text)) ==
              Collapsed(TargetText(g)[..from] + text + TargetText(g)[to..])
  {
    EditText(g.target, s, text, from, to, end, Spliced(g.target, s.first.token, end, Replacement(g.target, s, text)));
  }

  lemma ModifyAtTarget(g: Graph, first: nat, last: nat, x: string)
    requires first <= last < |g.target|
    ensures var e := Absorb(g, first, last + 1, x);
            ModifyAt(g, first, last, x).target ==
              g.target[..e.from] + FreshTokens(Tokenize(e.text), NextId(Ids(g.target))) + g.target[e.to..]
  {
  }

  /** The text after `modify_tokens` over the tokens `first..last`. */
  lemma SpanText(g: Graph, first: nat, last: nat, end: nat, x: string)
    requires first <= last < |g.target| && end == last + 1
    requires Shaped(Texts(g.target))
    ensures TargetText(ModifyAt(g, first, last, x)) == Spliced(g.target, first, end, x)
  {
    ModifyAtTarget(g, first, last, x);
    ExtentText(g, first, end, x);
  }

  /** The text `modify_tokens` leaves for the replaced span is the
      character-level edit, or nothing when that edit is blank. */
  lemma EditText(T: seq<Token>, s: Span, text: string, from: nat, to: nat, end: nat, y: string)
    requires Ends(Texts(T), s, from, to, end)
    requires Shaped(Texts(T))
    requires y == Spliced(T, s.first.token, end, Replacement(T, s, text))
    ensures from <= |Text(T)| && to <= |Text(T)| && y == Collapsed(Text(T)[..from] + text + Text(T)[to..])
  {
    ReplacementText(T, s, text, from, to, end);
    ShapedWordy(T);
    BlankEnds(T, s.first.token, end, Replacement(T, s, text));
  }

  /** `s` is a valid span whose ends sit at the character offsets `from`
      and `to`, with `end` the token after its last one. */
  predicate Ends(ts: seq<string>, s: Span, from: nat, to: nat, end: nat) {
    && ValidSpan(ts, s)
    && Width(ts, s.first.token) + s.first.offset == from
    && Width(ts, s.last.token) + s.last.offset == to
    && end == s.last.token + 1
  }

  /** The text around the replaced tokens, with the replacement, is the
      character-level edit. */
  lemma ReplacementText(T: seq<Token>, s: Span, text: string, from: nat, to: nat, end: nat)
    requires Ends(Texts(T), s, from, to, end)
    ensures && from <= |Text(T)| && to <= |Text(T)|
            && Text(T)[..from] + text + Text(T)[to..] ==
                 Text(T[..s.first.token]) + Replacement(T, s, text) + Text(T[end..])
  {
    var ts := Texts(T);
    var i, j := s.first.token, s.last.token;
    TextsSlices(T, i);
    TextsSlices(T, end);
    assert Replacement(T, s, text) == ts[i][..s.first.offset] + text + ts[j][s.last.offset..];
    assert Text(T[..i]) == Concat(ts[..i]);
    assert Text(T[end..]) == Concat(ts[end..]);
    SplitEdit(ts, i, s.first.offset, j, s.last.offset, from, to, end, text);
  }

  /** A character-level edit of concatenated strings, regrouped around the
      strings it touches. */
  lemma SplitEdit(ts: seq<string>, i: nat, oi: nat, j: nat, oj: nat, from: nat, to: nat, end: nat, text: string)
    requires i <= j < |ts| && oi <= |ts[i]| && oj <= |ts[j]|
    requires from == Width(ts, i) + oi && to == Width(ts, j) + oj && end == j + 1
    ensures && from <= |Concat(ts)| && to <= |Concat(ts)|
            && Concat(ts)[..from] + text + Concat(ts)[to..] ==
                 Concat(ts[..i]) + (ts[i][..oi] + text + ts[j][oj..]) + Concat(ts[end..])
  {
    CharSplit(ts, i, oi);
    CharSplit(ts, j, oj);
    Regroup(Concat(ts[..i]), ts[i][..oi], text, ts[j][oj..], Concat(ts[end..]));
  }

  lemma Regroup(a: string, pre: string, text: string, post: string, b: string)
    ensures (a + pre) + text + (post + b) == a + (pre + text + post) + b
  {
  }

  /** For word-holding tokens, the whole text is blank exactly when no
      token is kept around a blank replacement. */
  lemma BlankEnds(T: seq<Token>, i: nat, j: nat, x: string)
    requires i <= j <= |T| && Wordy(T)
    ensures var e := Text(T[..i]) + x + Text(T[j..]);
            (if i == 0 && j == |T| && Blank(x) then "" else e) == if Blank(e) then "" else e
  {
    var a, b := Text(T[..i]), Text(T[j..]);
    BlankAppend(a + x, b);
    BlankAppend(a, x);
    if Blank(a + x + b) {
      WordyBlank(T[..i]);
      WordyBlank(T[j..]);
      assert |T[..i]| == 0 && |T[j..]| == 0;
    } else if i == 0 && j == |T| {
      assert T[..i] == [] && T[j..] == [];
    }
  }

  /** `modify` keeps the graph invariant, the sides of the ids and the
      coverage of tokens by edges. */
  lemma ModifyInvariant(g: Graph, from: nat, to: nat, text: string)
    requires from <= to
    requires Invariant(g) && Sided(g)
    ensures Modify(g, from, to, text).Success? ==>
              var r := Modify(g, from, to, text).value;
              Invariant(r) && Sided(r) && (Covered(g) ==> Covered(r))
  {
    var ts := Texts(g.target);
    if to < |TargetText(g)| {
      var s := Locate(ts, from, to).value;
      ModifyCall(g, from, to, text, s);
      SpanKeeps(g, s.first.token, s.last.token, Replacement(g.target, s, text));
    }
  }


  /** The `modify_tokens` call `modify` makes once both offsets resolve. */
  lemma ModifyCall(g: Graph, from: nat, to: nat, text: string, s: Span)
    requires from <= to
    requires Locate(Texts(g.target), from, to) == Some(s)
    ensures ValidSpan(Texts(g.target), s)
    ensures Modify(g, from, to, text) ==
              Success(ModifyAt(g, s.first.token, s.last.token, Replacement(g.target, s, text)))
  {
  }

  /** An edit result keeps the graph invariant, the sides of the ids and,
      when the edited graph had it, the coverage of tokens by edges. */
  predicate Keeps(g: Graph, r: Graph) {
    Invariant(r) && Sided(r) && (Covered(g) ==> Covered(r))
  }

  /** `modify_tokens` over the tokens `first..last` keeps the invariant. */
  lemma SpanKeeps(g: Graph, first: nat, last: nat, x: string)
    requires first <= last < |g.target|
    requires Invariant(g) && Sided(g)
    ensures Keeps(g, ModifyAt(g, first, last, x))
  {
    ModifyTokensInvariant(g, first, last + 1, x);
  }
}
