/** The token-alignment graph of `src/Graph.ts`: a source and a target token
    sequence and the edges grouping token ids into correction units, with its
    invariant, its checker, its constructors and its lookups. */
module Graphs {
  import opened Seqs
  import opened Tokenizer
  import opened Identity

  /** A text fragment with a stable identity; `text` carries its trailing
      whitespace. */
  datatype Token = Token(text: string, id: Id)

  /** One correction unit: the token ids it groups, from either side, and the
      labels attached to it. */
  datatype Edge = Edge(id: string, ids: seq<Id>, labels: seq<string>)

  datatype Graph = Graph(source: seq<Token>, target: seq<Token>, edges: seq<Edge>)

  /** The `Edge` constructor: the edge id is the member ids joined with `-`. */
  function MkEdge(ids: seq<Id>, labels: seq<string>): Edge {
    Edge(EdgeName(ids), ids, labels)
  }

  /** Identical groupings get identical edge ids, and different groupings
      different ones. */
  lemma EdgeIdentity(a: seq<Id>, la: seq<string>, b: seq<Id>, lb: seq<string>)
    ensures MkEdge(a, la).id == MkEdge(b, lb).id <==> a == b
  {
    EdgeNameInjective(a, b);
  }

  function Ids(ts: seq<Token>): (r: seq<Id>)
    ensures |r| == |ts|
    ensures forall i | 0 <= i < |ts| :: r[i] == ts[i].id
  {
    seq(|ts|, i requires 0 <= i < |ts| => ts[i].id)
  }

  /** `texts`: the token texts in order. */
  function Texts(ts: seq<Token>): (r: seq<string>)
    ensures |r| == |ts|
    ensures forall i | 0 <= i < |ts| :: r[i] == ts[i].text
  {
    seq(|ts|, i requires 0 <= i < |ts| => ts[i].text)
  }

  /** `text`: the concatenated token texts. */
  function Text(ts: seq<Token>): string {
    Concat(Texts(ts))
  }

  lemma TextAppend(a: seq<Token>, b: seq<Token>)
    ensures Text(a + b) == Text(a) + Text(b)
  {
    assert Texts(a + b) == Texts(a) + Texts(b);
    ConcatAppend(Texts(a), Texts(b));
  }

  /** Every token id the edges mention, edge by edge, in order. */
  function AllEdgeIds(edges: seq<Edge>): (r: seq<Id>)
    ensures forall id :: id in r <==> exists k | 0 <= k < |edges| :: id in edges[k].ids
  {
    if edges == [] then []
    else
      var r := edges[0].ids + AllEdgeIds(edges[1..]);
      assert forall k | 1 <= k < |edges| :: edges[k] == edges[1..][k - 1];
      r
  }

  lemma AllEdgeIdsAppend(a: seq<Edge>, b: seq<Edge>)
    ensures AllEdgeIds(a + b) == AllEdgeIds(a) + AllEdgeIds(b)
  {
    if a != [] {
      assert (a + b)[1..] == a[1..] + b;
      AllEdgeIdsAppend(a[1..], b);
    } else {
      assert a + b == b;
    }
  }

  /** No token id is listed twice within one edge, nor in two edges. */
  predicate Disjoint(edges: seq<Edge>) {
    && (forall k | 0 <= k < |edges| :: Distinct(edges[k].ids))
    && forall j, k, id | 0 <= j < k < |edges| && id in edges[j].ids :: id !in edges[k].ids
  }

  lemma {:induction false} DisjointIffDistinct(edges: seq<Edge>)
    ensures Distinct(AllEdgeIds(edges)) <==> Disjoint(edges)
  {
    if edges != [] {
      var rest := edges[1..];
      DisjointIffDistinct(rest);
      DistinctAppend(edges[0].ids, AllEdgeIds(rest));
      assert forall k | 1 <= k < |edges| :: edges[k] == rest[k - 1];
    }
  }

  /** `edge_map`: each mentioned token id to an edge listing it. */
  function EdgeMap(edges: seq<Edge>): (m: map<Id, Edge>)
    ensures forall id :: id in m <==> id in AllEdgeIds(edges)
    ensures forall id | id in m :: id in m[id].ids && m[id] in edges
  {
    if edges == [] then map[]
    else
      var rest := EdgeMap(edges[1..]);
      assert forall k | 1 <= k < |edges| :: edges[k] == edges[1..][k - 1];
      (map id | id in edges[0].ids :: edges[0]) + rest
  }

  /** When an id is listed by several edges, the map keeps the last of them,
      as `new Map(entries)` keeps the last entry for a key. */
  lemma {:induction false} EdgeMapLastWins(edges: seq<Edge>, id: Id)
    requires id in AllEdgeIds(edges)
    ensures exists k | 0 <= k < |edges| ::
              edges[k] == EdgeMap(edges)[id] && forall j | k < j < |edges| :: id !in edges[j].ids
  {
    var rest := edges[1..];
    assert forall k | 1 <= k < |edges| :: edges[k] == rest[k - 1];
    if id in AllEdgeIds(rest) {
      EdgeMapLastWins(rest, id);
      var k :| 0 <= k < |rest| &&
               rest[k] == EdgeMap(rest)[id] && forall j | k < j < |rest| :: id !in rest[j].ids;
      assert edges[k + 1] == EdgeMap(edges)[id];
    } else {
      assert edges[0] == EdgeMap(edges)[id];
    }
  }

  /** Under disjointness the map sends every id to the one edge holding it. */
  lemma EdgeMapOwner(edges: seq<Edge>, k: nat, id: Id)
    requires Disjoint(edges)
    requires k < |edges| && id in edges[k].ids
    ensures id in EdgeMap(edges) && EdgeMap(edges)[id] == edges[k]
  {
    assert id in AllEdgeIds(edges);
    EdgeMapLastWins(edges, id);
  }

  /** The first edge that lists `id`. */
  function FindEdge(edges: seq<Edge>, id: Id): (r: Option<Edge>)
    ensures r.None? <==> id !in AllEdgeIds(edges)
    ensures r.Some? ==>
              exists k | 0 <= k < |edges| ::
                edges[k] == r.value && id in edges[k].ids &&
                forall j | 0 <= j < k :: id !in edges[j].ids
  {
    if edges == [] then None
    else if id in edges[0].ids then Some(edges[0])
    else
      var r := FindEdge(edges[1..], id);
      assert forall k | 1 <= k < |edges| :: edges[k] == edges[1..][k - 1];
      r
  }

  datatype Fault =
    | IndexOutOfRange  // indexing past the target (a TypeError in the source)
    | OutOfBounds      // the target token is in no edge (raised by `edge_at`)

  /** `edge_at`: the first edge holding the target token at `index`. */
  function EdgeAt(g: Graph, index: nat): (r: Result<Edge, Fault>)
    ensures r.Failure? <==>
              index >= |g.target| || g.target[index].id !in AllEdgeIds(g.edges)
    ensures r.Failure? ==> (r.error == IndexOutOfRange <==> index >= |g.target|)
    ensures r.Success? ==>
              exists k | 0 <= k < |g.edges| ::
                g.edges[k] == r.value && g.target[index].id in g.edges[k].ids &&
                forall j | 0 <= j < k :: g.target[index].id !in g.edges[j].ids
  {
    if index >= |g.target| then Failure(IndexOutOfRange)
    else match FindEdge(g.edges, g.target[index].id)
      case None => Failure(OutOfBounds)
      case Some(e) => Success(e)
  }

  /** `edge_at` and `edge_map` agree on a graph whose edges are disjoint. */
  lemma EdgeAtAgreesWithEdgeMap(g: Graph, index: nat)
    requires Disjoint(g.edges)
    requires index < |g.target|
    ensures EdgeAt(g, index).Success? <==> g.target[index].id in EdgeMap(g.edges)
    ensures EdgeAt(g, index).Success? ==>
              EdgeAt(g, index).value == EdgeMap(g.edges)[g.target[index].id]
  {
    var r := EdgeAt(g, index);
    if r.Success? {
      var k :| 0 <= k < |g.edges| && g.edges[k] == r.value && g.target[index].id in g.edges[k].ids;
      EdgeMapOwner(g.edges, k, g.target[index].id);
    }
  }

  /** `related`: the ids grouped with the target token at `index`: the
      whole id list of the first edge holding the token, or the failure of
      `edge_at`. */
  function Related(g: Graph, index: nat): (r: Result<seq<Id>, Fault>)
    ensures r.Success? <==> EdgeAt(g, index).Success?
    ensures r.Failure? ==> r.error == EdgeAt(g, index).error
    ensures r.Success? ==> index < |g.target| && g.target[index].id in r.value
    ensures r.Success? ==>
              exists k | 0 <= k < |g.edges| ::
                g.edges[k].ids == r.value && g.target[index].id in g.edges[k].ids &&
                forall j | 0 <= j < k :: g.target[index].id !in g.edges[j].ids
  {
    match EdgeAt(g, index)
    case Failure(f) => Failure(f)
    case Success(e) => Success(e.ids)
  }

  /** With disjoint edges, the ids related to a token are exactly the ids
      `edge_map` sends to the same edge as the token's own id. */
  lemma RelatedGroup(g: Graph, index: nat)
    requires Disjoint(g.edges)
    requires Related(g, index).Success?
    ensures index < |g.target| && g.target[index].id in EdgeMap(g.edges)
    ensures forall id :: id in Related(g, index).value <==>
              id in EdgeMap(g.edges) && EdgeMap(g.edges)[id] == EdgeMap(g.edges)[g.target[index].id]
  {
    var m := EdgeMap(g.edges);
    var t := g.target[index].id;
    var k :| 0 <= k < |g.edges| && g.edges[k].ids == Related(g, index).value && t in g.edges[k].ids;
    EdgeMapOwner(g.edges, k, t);
    forall id ensures id in Related(g, index).value <==> id in m && m[id] == m[t] {
      if id in g.edges[k].ids {
        EdgeMapOwner(g.edges, k, id);
      }
      if id in m && m[id] == m[t] {
        assert id in g.edges[k].ids;
      }
    }
  }

  /** The graph invariant of `check_invariant`: token ids pairwise distinct
      across both sides, every token well-shaped, no id in two edges (or
      twice in one), and every edge id a real token id. */
  predicate Invariant(g: Graph) {
    && Distinct(Ids(g.source + g.target))
    && Shaped(Texts(g.target))
    && Shaped(Texts(g.source))
    && Distinct(AllEdgeIds(g.edges))
    && forall id | id in AllEdgeIds(g.edges) :: id in Ids(g.source + g.target)
  }

  /** Every token holds a non-whitespace character (implied by the shape
      part of the invariant). */
  predicate Wordy(ts: seq<Token>) {
    forall k | 0 <= k < |ts| :: !Blank(ts[k].text)
  }

  lemma ShapedWordy(ts: seq<Token>)
    requires Shaped(Texts(ts))
    ensures Wordy(ts)
  {
    forall k | 0 <= k < |ts| ensures !Blank(ts[k].text) {
      TokenNotBlank(ts[k].text, k == |ts| - 1);
    }
  }

  /** Text made of word-holding tokens is blank only when there are none. */
  lemma WordyBlank(ts: seq<Token>)
    requires Wordy(ts) && Blank(Text(ts))
    ensures ts == []
  {
    if ts != [] {
      assert Texts(ts) == [ts[0].text] + Texts(ts[1..]);
      assert Text(ts) == ts[0].text + Text(ts[1..]);
      BlankAppend(ts[0].text, Text(ts[1..]));
    }
  }

  lemma IdsAppend(a: seq<Token>, b: seq<Token>)
    ensures Ids(a + b) == Ids(a) + Ids(b)
  {
  }

  lemma TextsAppend(a: seq<Token>, b: seq<Token>)
    ensures Texts(a + b) == Texts(a) + Texts(b)
  {
  }

  /** Every token belongs to some edge (assumed by the diff, not checked by
      `check_invariant`). */
  predicate Covered(g: Graph) {
    forall id | id in Ids(g.source + g.target) :: id in AllEdgeIds(g.edges)
  }

  /** Source ids carry the `s` prefix and target ids the `t` prefix. */
  predicate Sided(g: Graph) {
    OnSide(g.source, Source) && OnSide(g.target, Target)
  }

  predicate OnSide(ts: seq<Token>, side: Side) {
    forall i | 0 <= i < |ts| :: ts[i].id.side == side
  }

  datatype Reason =
    | DuplicateId(id: Id)
    | BadTextToken(text: string)
    | BadLastToken(text: string)
    | DuplicateEdgeId(id: Id)
    | UnknownEdgeId(id: Id)

  datatype Check = Ok | Violation(reason: Reason)

  /** The first position at or after `i` whose token is misshapen. */
  function FirstMisshapen(ts: seq<string>, i: nat): (r: Option<nat>)
    requires i <= |ts|
    ensures r.None? <==> forall k | i <= k < |ts| :: IsToken(ts[k], k == |ts| - 1)
    ensures r.Some? ==> i <= r.value < |ts| && !IsToken(ts[r.value], r.value == |ts| - 1)
    decreases |ts| - i
  {
    if i == |ts| then None
    else if !IsToken(ts[i], i == |ts| - 1) then Some(i)
    else FirstMisshapen(ts, i + 1)
  }

  /** The shape check of one side: a bad non-final token is reported as a
      text token, a bad final one as the last token. */
  function ShapeFault(ts: seq<string>): (r: Option<Reason>)
    ensures r.None? <==> Shaped(ts)
    ensures r.Some? ==>
              || (r.value.BadTextToken? &&
                  exists k | 0 <= k < |ts| - 1 :: ts[k] == r.value.text && !IsToken(ts[k], false))
              || (r.value.BadLastToken? &&
                  |ts| > 0 && ts[|ts| - 1] == r.value.text && !IsToken(r.value.text, true))
  {
    match FirstMisshapen(ts, 0)
    case None => None
    case Some(k) => if k != |ts| - 1 then Some(BadTextToken(ts[k])) else Some(BadLastToken(ts[k]))
  }

  /** The edge check: walking the edge id lists in order, the first id seen
      before or not among the `known` token ids. */
  function EdgeFault(ids: seq<Id>, seen: set<Id>, known: set<Id>): Option<Reason>
    decreases |ids|
  {
    if ids == [] then None
    else if ids[0] in seen then Some(DuplicateEdgeId(ids[0]))
    else if ids[0] !in known then Some(UnknownEdgeId(ids[0]))
    else EdgeFault(ids[1..], seen + {ids[0]}, known)
  }

  /** The edge check finds nothing exactly when the ids are distinct, none
      seen before and all known; what it reports is a repeated or an
      unknown id of the list. */
  lemma {:induction false} EdgeFaultSpec(ids: seq<Id>, seen: set<Id>, known: set<Id>)
    ensures var r := EdgeFault(ids, seen, known);
            && (r.None? <==>
                  && Distinct(ids)
                  && (forall k | 0 <= k < |ids| :: ids[k] !in seen)
                  && (forall k | 0 <= k < |ids| :: ids[k] in known))
            && (r.Some? ==>
                  || (r.value.DuplicateEdgeId? &&
                      exists k | 0 <= k < |ids| ::
                        ids[k] == r.value.id && (r.value.id in seen || r.value.id in ids[..k]))
                  || (r.value.UnknownEdgeId? && r.value.id in ids && r.value.id !in known))
    decreases |ids|
  {
    if ids != [] && ids[0] !in seen && ids[0] in known {
      var rest, seen' := ids[1..], seen + {ids[0]};
      EdgeFaultSpec(rest, seen', known);
      var r := EdgeFault(rest, seen', known);
      assert ids == [ids[0]] + rest;
      DistinctAppend([ids[0]], rest);
      if r.Some? && r.value.DuplicateEdgeId? {
        var k :| 0 <= k < |rest| && rest[k] == r.value.id && (r.value.id in seen' || r.value.id in rest[..k]);
        assert ids[k + 1] == r.value.id;
        assert rest[..k] == ids[1..k + 1];
      }
    }
  }

  /** `check_invariant`: `Ok` exactly when the invariant holds, otherwise
      the first violation in the order the source checks them. */
  function CheckInvariant(g: Graph): (r: Check)
    ensures r == Ok <==> Invariant(g)
    ensures r.Violation? && r.reason.DuplicateId? ==>
              exists i, j | 0 <= i < j < |g.source + g.target| ::
                (g.source + g.target)[i].id == r.reason.id == (g.source + g.target)[j].id
    ensures r.Violation? && r.reason.UnknownEdgeId? ==>
              r.reason.id in AllEdgeIds(g.edges) && r.reason.id !in Ids(g.source + g.target)
  {
    var ids := Ids(g.source + g.target);
    match FirstRepeat(ids, {})
    case Some(x) =>
      var k :| 0 <= k < |ids| && ids[k] == x && x in ids[..k];
      var i :| 0 <= i < k && ids[..k][i] == x;
      Violation(DuplicateId(x))
    case None =>
      match ShapeFault(Texts(g.target))
      case Some(reason) => Violation(reason)
      case None =>
        match ShapeFault(Texts(g.source))
        case Some(reason) => Violation(reason)
        case None =>
          var known := set k | 0 <= k < |ids| :: ids[k];
          EdgeFaultSpec(AllEdgeIds(g.edges), {}, known);
          match EdgeFault(AllEdgeIds(g.edges), {}, known)
          case Some(reason) => Violation(reason)
          case None => Ok
  }

  /** `init_from`: a graph over already tokenized text, token `i` of each
      side joined by one unlabelled edge. */
  function InitFrom(ts: seq<string>): Graph {
    Graph(
      seq(|ts|, i requires 0 <= i < |ts| => Token(ts[i], Id(Source, i))),
      seq(|ts|, i requires 0 <= i < |ts| => Token(ts[i], Id(Target, i))),
      seq(|ts|, i requires 0 <= i < |ts| => MkEdge([Id(Source, i), Id(Target, i)], [])))
  }

  /** `init`: the graph of an unedited text. */
  function Init(s: string): Graph {
    InitFrom(Tokenize(s))
  }

  function TargetText(g: Graph): string {
    Text(g.target)
  }

  function SourceText(g: Graph): string {
    Text(g.source)
  }

  /** The edge at target position `i` of `init_from(ts)` is the edge
      `s{i}-t{i}` over the two tokens at position `i`; past the end there is
      none. */
  lemma InitFromEdgeAt(ts: seq<string>, i: nat)
    ensures i < |ts| ==>
              && InitFrom(ts).edges[i].id == "s" + NatStr(i) + "-t" + NatStr(i)
              && EdgeAt(InitFrom(ts), i) == Success(InitFrom(ts).edges[i])
              && Related(InitFrom(ts), i) == Success([Id(Source, i), Id(Target, i)])
    ensures i >= |ts| ==> EdgeAt(InitFrom(ts), i) == Failure(IndexOutOfRange)
  {
    if i < |ts| {
      PairEdgeName(i);
      InitFromEdgeFound(ts, i);
      assert InitFrom(ts).edges[i].ids == [Id(Source, i), Id(Target, i)];
    }
  }

  /** Target token `i` of `init_from(ts)` is found in edge `i`. */
  lemma InitFromEdgeFound(ts: seq<string>, i: nat)
    requires i < |ts|
    ensures EdgeAt(InitFrom(ts), i) == Success(InitFrom(ts).edges[i])
  {
    var g := InitFrom(ts);
    assert g.target[i].id in g.edges[i].ids;
    forall j | 0 <= j < i ensures g.target[i].id !in g.edges[j].ids {
      assert g.edges[j].ids == [Id(Source, j), Id(Target, j)];
    }
    FirstEdgeAt(g, i, i);
  }

  /** `edge_at` returns the first edge holding the token's id. */
  lemma FirstEdgeAt(g: Graph, i: nat, k: nat)
    requires i < |g.target| && k < |g.edges|
    requires g.target[i].id in g.edges[k].ids
    requires forall j | 0 <= j < k :: g.target[i].id !in g.edges[j].ids
    ensures EdgeAt(g, i) == Success(g.edges[k])
  {
    var r := EdgeAt(g, i);
    var m :| 0 <= m < |g.edges| && g.edges[m] == r.value && g.target[i].id in g.edges[m].ids &&
             forall j | 0 <= j < m :: g.target[i].id !in g.edges[j].ids;
    assert m == k;
  }

  lemma PairEdgeName(i: nat)
    ensures EdgeName([Id(Source, i), Id(Target, i)]) == "s" + NatStr(i) + "-t" + NatStr(i)
  {
    var ids := [Id(Source, i), Id(Target, i)];
    var ns := Names(ids);
    assert ns == ["s" + NatStr(i), "t" + NatStr(i)];
    assert ns[1..] == ["t" + NatStr(i)];
    calc {
      Join(ns);
      ns[0] + "-" + Join(ns[1..]);
      ("s" + NatStr(i)) + "-" + ("t" + NatStr(i));
      "s" + NatStr(i) + "-t" + NatStr(i);
    }
  }

  /** `init_from` builds a graph that passes `check_invariant` exactly when
      the given tokens are well-shaped; it is also covered. */
  lemma InitFromInvariant(ts: seq<string>)
    ensures CheckInvariant(InitFrom(ts)) == Ok <==> Shaped(ts)
    ensures Covered(InitFrom(ts))
  {
    var g := InitFrom(ts);
    assert Texts(g.target) == ts && Texts(g.source) == ts;
    InitFromDistinct(ts);
    InitFromEdges(ts);
  }

  lemma InitFromDistinct(ts: seq<string>)
    ensures Distinct(Ids(InitFrom(ts).source + InitFrom(ts).target))
  {
    var g := InitFrom(ts);
    var ids := Ids(g.source + g.target);
    forall i, j | 0 <= i < j < |ids| ensures ids[i] != ids[j] {
      if j < |ts| || i >= |ts| {
      } else {
        assert ids[i].side == Source && ids[j].side == Target;
      }
    }
  }

  /** The shape of the edges `init` gives `n` tokens: edge `k` pairs source
      and target id `k`, with no labels. */
  predicate InitEdges(edges: seq<Edge>, n: nat) {
    && |edges| == n
    && forall k | 0 <= k < n :: edges[k].ids == [Id(Source, k), Id(Target, k)] && edges[k].labels == []
  }

  /** `init` pairs the k-th source and target token in the k-th edge. */
  lemma InitFromPairs(ts: seq<string>)
    ensures InitEdges(InitFrom(ts).edges, |ts|)
  {
  }

  /** The edges of `init_from` are disjoint and list exactly the tokens. */
  lemma InitFromEdges(ts: seq<string>)
    ensures var g := InitFrom(ts);
            && Distinct(AllEdgeIds(g.edges))
            && forall id :: id in AllEdgeIds(g.edges) <==> id in Ids(g.source + g.target)
  {
    var g := InitFrom(ts);
    assert Disjoint(g.edges);
    DisjointIffDistinct(g.edges);
    var ids := Ids(g.source + g.target);
    forall id | id in AllEdgeIds(g.edges) ensures id in ids {
      var k :| 0 <= k < |g.edges| && id in g.edges[k].ids;
      InitFromEdgeIdKnown(ts, k, id);
    }
    forall id | id in ids ensures id in AllEdgeIds(g.edges) {
      var k :| 0 <= k < |ids| && ids[k] == id;
      InitFromTokenInEdge(ts, k);
    }
  }

  /** The ids of edge `k` of `init_from(ts)` are token ids. */
  lemma InitFromEdgeIdKnown(ts: seq<string>, k: nat, id: Id)
    requires k < |ts| && id in InitFrom(ts).edges[k].ids
    ensures id in Ids(InitFrom(ts).source + InitFrom(ts).target)
  {
    var g := InitFrom(ts);
    var ids := Ids(g.source + g.target);
    assert g.edges[k].ids == [Id(Source, k), Id(Target, k)];
    assert ids[k] == Id(Source, k);
    assert ids[|ts| + k] == Id(Target, k);
  }

  /** Token `k` of both sides of `init_from(ts)`, source first, is in an
      edge. */
  lemma InitFromTokenInEdge(ts: seq<string>, k: nat)
    requires k < 2 * |ts|
    ensures Ids(InitFrom(ts).source + InitFrom(ts).target)[k] in AllEdgeIds(InitFrom(ts).edges)
  {
    var g := InitFrom(ts);
    var id := Ids(g.source + g.target)[k];
    if k < |ts| {
      assert id == Id(Source, k);
      assert id in g.edges[k].ids;
    } else {
      assert id == Id(Target, k - |ts|);
      assert id in g.edges[k - |ts|].ids;
    }
  }

  lemma InitFromSided(ts: seq<string>)
    ensures Sided(InitFrom(ts))
  {
  }

  /** `init` of any text passes `check_invariant`, and both sides spell the
      text back, except that a blank text gives the empty graph. */
  lemma InitInvariant(s: string)
    ensures CheckInvariant(Init(s)) == Ok
    ensures SourceText(Init(s)) == TargetText(Init(s)) == (if Blank(s) then "" else s)
  {
    var ts := Tokenize(s);
    TokenizeSpec(s);
    InitFromInvariant(ts);
    InitFromTexts(ts);
  }

  lemma InitFromTexts(ts: seq<string>)
    ensures Texts(InitFrom(ts).source) == ts && Texts(InitFrom(ts).target) == ts
  {
  }
}
