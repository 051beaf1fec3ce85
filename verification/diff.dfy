/** The diff engine of `src/Graph.ts`: source and target are aligned by the
    id of the edge owning each token, the alignment becomes a stream of
    `Dragged` (source side) and `Dropped` (target side) steps, and every
    edge whose steps sit next to each other in the stream is collapsed into
    one `Edited` entry. */
module Diffs {
  import opened Seqs
  import opened Graphs

  /** An entry of the diff. */
  datatype Diff =
    | Dragged(source: Token, id: string, labels: seq<string>)
    | Dropped(target: Token, id: string, labels: seq<string>)
    | Edited(sources: seq<Token>, targets: seq<Token>, id: string, labels: seq<string>)

  /** Only `Dragged` and `Dropped` steps: what `calculate_raw_diff` emits. */
  predicate Raw(ds: seq<Diff>) {
    forall d | d in ds :: !d.Edited?
  }

  /** The source tokens an entry stands for. */
  function SourcesOf(d: Diff): seq<Token> {
    match d
    case Dragged(t, _, _) => [t]
    case Dropped(_, _, _) => []
    case Edited(s, _, _, _) => s
  }

  /** The target tokens an entry stands for. */
  function TargetsOf(d: Diff): seq<Token> {
    match d
    case Dragged(_, _, _) => []
    case Dropped(t, _, _) => [t]
    case Edited(_, t, _, _) => t
  }

  /** The source tokens of a stream, in order. */
  function Sources(ds: seq<Diff>): seq<Token> {
    if ds == [] then [] else SourcesOf(ds[0]) + Sources(ds[1..])
  }

  /** The target tokens of a stream, in order. */
  function Targets(ds: seq<Diff>): seq<Token> {
    if ds == [] then [] else TargetsOf(ds[0]) + Targets(ds[1..])
  }

  lemma SidesCons(d: Diff, ds: seq<Diff>)
    ensures Sources([d] + ds) == SourcesOf(d) + Sources(ds)
    ensures Targets([d] + ds) == TargetsOf(d) + Targets(ds)
  {
    assert ([d] + ds)[1..] == ds;
  }

  lemma {:induction false} SidesAppend(a: seq<Diff>, b: seq<Diff>)
    ensures Sources(a + b) == Sources(a) + Sources(b)
    ensures Targets(a + b) == Targets(a) + Targets(b)
  {
    if a == [] {
      assert a + b == b;
    } else {
      assert a + b == [a[0]] + (a[1..] + b);
      SidesCons(a[0], a[1..] + b);
      SidesAppend(a[1..], b);
      SidesCons(a[0], a[1..]);
      assert a == [a[0]] + a[1..];
    }
  }

  // ---------------------------------------------------------------------
  // Alignment (`Utils.hdiff`)
  // ---------------------------------------------------------------------

  /** A token with the edge that owns it; the alignment compares the
      edges' ids. */
  datatype Tagged = Tagged(token: Token, edge: Edge)

  /** One step of the alignment: a matched pair, a source-only token or a
      target-only token. */
  datatype Change = Both(a: Tagged, b: Tagged) | OnlyA(a: Tagged) | OnlyB(b: Tagged)

  /** The source token of a change, if it has one. */
  function Left(c: Change): seq<Tagged> {
    if c.OnlyB? then [] else [c.a]
  }

  /** The target token of a change, if it has one. */
  function Right(c: Change): seq<Tagged> {
    if c.OnlyA? then [] else [c.b]
  }

  /** The source side of an alignment, in order. */
  function Lefts(cs: seq<Change>): seq<Tagged> {
    if cs == [] then [] else Left(cs[0]) + Lefts(cs[1..])
  }

  /** The target side of an alignment, in order. */
  function Rights(cs: seq<Change>): seq<Tagged> {
    if cs == [] then [] else Right(cs[0]) + Rights(cs[1..])
  }

  /** The number of matched pairs. */
  function Matches(cs: seq<Change>): nat {
    if cs == [] then 0 else (if cs[0].Both? then 1 else 0) + Matches(cs[1..])
  }

  /** `cs` aligns `xs` against `ys`: it lists each side completely and in
      order, and pairs only tokens owned by edges with the same id. */
  predicate Aligns(cs: seq<Change>, xs: seq<Tagged>, ys: seq<Tagged>) {
    && Lefts(cs) == xs
    && Rights(cs) == ys
    && forall c | c in cs && c.Both? :: c.a.edge.id == c.b.edge.id
  }

  lemma ChangeCons(c: Change, cs: seq<Change>)
    ensures Lefts([c] + cs) == Left(c) + Lefts(cs)
    ensures Rights([c] + cs) == Right(c) + Rights(cs)
  {
    assert ([c] + cs)[1..] == cs;
  }

  /** An order-preserving alignment with as many matched pairs as the
      exhaustive search finds; equal heads are matched at once, and on a tie
      the source token is dropped first. */
  function Align(xs: seq<Tagged>, ys: seq<Tagged>): seq<Change>
    decreases |xs| + |ys|
  {
    if xs == [] && ys == [] then []
    else if xs == [] then [OnlyB(ys[0])] + Align(xs, ys[1..])
    else if ys == [] then [OnlyA(xs[0])] + Align(xs[1..], ys)
    else if xs[0].edge.id == ys[0].edge.id then [Both(xs[0], ys[0])] + Align(xs[1..], ys[1..])
    else
      var l := [OnlyA(xs[0])] + Align(xs[1..], ys);
      var r := [OnlyB(ys[0])] + Align(xs, ys[1..]);
      if Matches(r) > Matches(l) then r else l
  }

  /** `Utils.hdiff`'s contract: the alignment lists every source token and
      every target token once, each side in order, and pairs only tokens
      whose keys agree. */
  lemma {:induction false} AlignSound(xs: seq<Tagged>, ys: seq<Tagged>)
    ensures Aligns(Align(xs, ys), xs, ys)
  {
    AlignLefts(xs, ys);
    AlignRights(xs, ys);
    AlignPairs(xs, ys);
  }

  lemma {:induction false} AlignLefts(xs: seq<Tagged>, ys: seq<Tagged>)
    ensures Lefts(Align(xs, ys)) == xs
    decreases |xs| + |ys|
  {
    if xs == [] && ys == [] {
    } else if xs == [] {
      var ys' := ys[1..];
      AlignLefts(xs, ys');
      ChangeCons(OnlyB(ys[0]), Align(xs, ys'));
    } else if ys == [] {
      var xs' := xs[1..];
      AlignLefts(xs', ys);
      ChangeCons(OnlyA(xs[0]), Align(xs', ys));
      assert xs == [xs[0]] + xs';
    } else if xs[0].edge.id == ys[0].edge.id {
      var xs', ys' := xs[1..], ys[1..];
      AlignLefts(xs', ys');
      ChangeCons(Both(xs[0], ys[0]), Align(xs', ys'));
      assert xs == [xs[0]] + xs';
    } else {
      var xs', ys' := xs[1..], ys[1..];
      assert Lefts([OnlyA(xs[0])] + Align(xs', ys)) == xs by {
        AlignLefts(xs', ys);
        ChangeCons(OnlyA(xs[0]), Align(xs', ys));
        assert xs == [xs[0]] + xs';
      }
      assert Lefts([OnlyB(ys[0])] + Align(xs, ys')) == xs by {
        AlignLefts(xs, ys');
        ChangeCons(OnlyB(ys[0]), Align(xs, ys'));
      }
    }
  }

  lemma {:induction false} AlignRights(xs: seq<Tagged>, ys: seq<Tagged>)
    ensures Rights(Align(xs, ys)) == ys
    decreases |xs| + |ys|
  {
    if xs == [] && ys == [] {
    } else if xs == [] {
      var ys' := ys[1..];
      AlignRights(xs, ys');
      ChangeCons(OnlyB(ys[0]), Align(xs, ys'));
      assert ys == [ys[0]] + ys';
    } else if ys == [] {
      var xs' := xs[1..];
      AlignRights(xs', ys);
      ChangeCons(OnlyA(xs[0]), Align(xs', ys));
    } else if xs[0].edge.id == ys[0].edge.id {
      var xs', ys' := xs[1..], ys[1..];
      AlignRights(xs', ys');
      ChangeCons(Both(xs[0], ys[0]), Align(xs', ys'));
      assert ys == [ys[0]] + ys';
    } else {
      var xs', ys' := xs[1..], ys[1..];
      assert Rights([OnlyA(xs[0])] + Align(xs', ys)) == ys by {
        AlignRights(xs', ys);
        ChangeCons(OnlyA(xs[0]), Align(xs', ys));
      }
      assert Rights([OnlyB(ys[0])] + Align(xs, ys')) == ys by {
        AlignRights(xs, ys');
        ChangeCons(OnlyB(ys[0]), Align(xs, ys'));
        assert ys == [ys[0]] + ys';
      }
    }
  }

  lemma {:induction false} AlignPairs(xs: seq<Tagged>, ys: seq<Tagged>)
    ensures forall c | c in Align(xs, ys) && c.Both? :: c.a.edge.id == c.b.edge.id
    decreases |xs| + |ys|
  {
    if xs == [] && ys == [] {
    } else if xs == [] {
      AlignPairs(xs, ys[1..]);
    } else if ys == [] {
      AlignPairs(xs[1..], ys);
    } else if xs[0].edge.id == ys[0].edge.id {
      AlignPairs(xs[1..], ys[1..]);
    } else {
      AlignPairs(xs[1..], ys);
      AlignPairs(xs, ys[1..]);
    }
  }

  /** No alignment pairs more tokens than `Align`: it is a longest common
      subsequence of the two key sequences, as the exhaustive search in
      `Utils.hdiff` finds. */
  lemma {:induction false} AlignMaximal(xs: seq<Tagged>, ys: seq<Tagged>, cs: seq<Change>)
    requires Aligns(cs, xs, ys)
    ensures Matches(cs) <= Matches(Align(xs, ys))
    decreases |xs| + |ys|
  {
    if cs == [] {
      return;
    }
    var c, rest := cs[0], cs[1..];
    assert cs == [c] + rest;
    ChangeCons(c, rest);
    assert Matches(cs) == (if c.Both? then 1 else 0) + Matches(rest);
    match c
    case Both(a, b) =>
      assert xs == [a] + Lefts(rest) && ys == [b] + Rights(rest);
      assert Aligns(rest, xs[1..], ys[1..]);
      AlignMaximal(xs[1..], ys[1..], rest);
      AlignBoth(xs, ys);
    case OnlyA(a) =>
      assert xs == [a] + Lefts(rest) && Rights(rest) == ys;
      assert Aligns(rest, xs[1..], ys);
      if ys != [] && xs[0].edge.id == ys[0].edge.id {
        var d := DropRight(rest);
        AlignMaximal(xs[1..], ys[1..], d);
        AlignBoth(xs, ys);
      } else {
        AlignMaximal(xs[1..], ys, rest);
        AlignSkipA(xs, ys);
      }
    case OnlyB(b) =>
      assert ys == [b] + Rights(rest) && Lefts(rest) == xs;
      assert Aligns(rest, xs, ys[1..]);
      if xs != [] && xs[0].edge.id == ys[0].edge.id {
        var d := DropLeft(rest);
        AlignMaximal(xs[1..], ys[1..], d);
        AlignBoth(xs, ys);
      } else {
        AlignMaximal(xs, ys[1..], rest);
        AlignSkipB(xs, ys);
      }
  }

  /** Equal heads are paired at once. */
  lemma AlignBoth(xs: seq<Tagged>, ys: seq<Tagged>)
    requires xs != [] && ys != [] && xs[0].edge.id == ys[0].edge.id
    ensures Matches(Align(xs, ys)) == 1 + Matches(Align(xs[1..], ys[1..]))
  {
    MatchesCons(Both(xs[0], ys[0]), Align(xs[1..], ys[1..]));
  }

  /** Leaving the first source token unmatched never beats `Align`. */
  lemma AlignSkipA(xs: seq<Tagged>, ys: seq<Tagged>)
    requires xs != [] && (ys == [] || xs[0].edge.id != ys[0].edge.id)
    ensures Matches(Align(xs[1..], ys)) <= Matches(Align(xs, ys))
  {
    MatchesCons(OnlyA(xs[0]), Align(xs[1..], ys));
  }

  /** Leaving the first target token unmatched never beats `Align`. */
  lemma AlignSkipB(xs: seq<Tagged>, ys: seq<Tagged>)
    requires ys != [] && (xs == [] || xs[0].edge.id != ys[0].edge.id)
    ensures Matches(Align(xs, ys[1..])) <= Matches(Align(xs, ys))
  {
    MatchesCons(OnlyB(ys[0]), Align(xs, ys[1..]));
  }

  lemma MatchesCons(c: Change, cs: seq<Change>)
    ensures Matches([c] + cs) == (if c.Both? then 1 else 0) + Matches(cs)
  {
    assert ([c] + cs)[1..] == cs;
  }

  /** An alignment without its first target token: a pair holding it
      becomes a source-only step, losing at most one match. */
  function DropRight(cs: seq<Change>): (r: seq<Change>)
    requires Rights(cs) != []
    ensures Lefts(r) == Lefts(cs) && Rights(r) == Rights(cs)[1..]
    ensures Matches(cs) <= Matches(r) + 1
    ensures forall c | c in r && c.Both? :: c in cs
  {
    ChangeCons(cs[0], cs[1..]);
    assert cs == [cs[0]] + cs[1..];
    var rest := cs[1..];
    match cs[0]
    case OnlyA(a) =>
      var r := [OnlyA(a)] + DropRight(rest);
      ChangeCons(OnlyA(a), DropRight(rest));
      assert r[1..] == DropRight(rest);
      r
    case Both(a, _) =>
      var r := [OnlyA(a)] + rest;
      ChangeCons(OnlyA(a), rest);
      assert r[1..] == rest;
      r
    case OnlyB(_) => rest
  }

  /** An alignment without its first source token, symmetrically. */
  function DropLeft(cs: seq<Change>): (r: seq<Change>)
    requires Lefts(cs) != []
    ensures Lefts(r) == Lefts(cs)[1..] && Rights(r) == Rights(cs)
    ensures Matches(cs) <= Matches(r) + 1
    ensures forall c | c in r && c.Both? :: c in cs
  {
    ChangeCons(cs[0], cs[1..]);
    assert cs == [cs[0]] + cs[1..];
    var rest := cs[1..];
    match cs[0]
    case OnlyB(b) =>
      var r := [OnlyB(b)] + DropLeft(rest);
      ChangeCons(OnlyB(b), DropLeft(rest));
      assert r[1..] == DropLeft(rest);
      r
    case Both(_, b) =>
      var r := [OnlyB(b)] + rest;
      ChangeCons(OnlyB(b), rest);
      assert r[1..] == rest;
      r
    case OnlyA(_) => rest
  }

  // ---------------------------------------------------------------------
  // Raw diff
  // ---------------------------------------------------------------------

  /** Every token of `ts` is listed by some edge. */
  predicate Owned(edges: seq<Edge>, ts: seq<Token>) {
    forall k | 0 <= k < |ts| :: ts[k].id in EdgeMap(edges)
  }

  /** Each token paired with the edge `edge_map` gives for its id: the
      tokens keep their order and each is paired with an edge of the graph
      that lists it. */
  function Tag(edges: seq<Edge>, ts: seq<Token>): (r: seq<Tagged>)
    requires Owned(edges, ts)
    ensures |r| == |ts| && Tokens(r) == ts
    ensures forall k | 0 <= k < |r| :: r[k].edge in edges && ts[k].id in r[k].edge.ids
  {
    seq(|ts|, k requires 0 <= k < |ts| => Tagged(ts[k], EdgeMap(edges)[ts[k].id]))
  }

  function Tokens(xs: seq<Tagged>): (r: seq<Token>)
    ensures |r| == |xs| && forall k | 0 <= k < |r| :: r[k] == xs[k].token
  {
    seq(|xs|, k requires 0 <= k < |xs| => xs[k].token)
  }

  function Drag(a: Tagged): Diff {
    Dragged(a.token, a.edge.id, a.edge.labels)
  }

  function Drop(b: Tagged): Diff {
    Dropped(b.token, b.edge.id, b.edge.labels)
  }

  /** The steps of one alignment change: a matched pair becomes its
      `Dragged` step immediately followed by its `Dropped` step. */
  function Emit(c: Change): seq<Diff> {
    match c
    case Both(a, b) => [Drag(a), Drop(b)]
    case OnlyA(a) => [Drag(a)]
    case OnlyB(b) => [Drop(b)]
  }

  function EmitAll(cs: seq<Change>): seq<Diff> {
    if cs == [] then [] else Emit(cs[0]) + EmitAll(cs[1..])
  }

  /** `calculate_raw_diff`.  Looking up a token no edge lists fails in the
      source, so every token must be owned. */
  function RawDiff(g: Graph): seq<Diff>
    requires Owned(g.edges, g.source) && Owned(g.edges, g.target)
  {
    EmitAll(Align(Tag(g.edges, g.source), Tag(g.edges, g.target)))
  }

  /** Coverage makes every token owned, so the raw diff is defined. */
  lemma CoveredOwned(g: Graph)
    requires Covered(g)
    ensures Owned(g.edges, g.source) && Owned(g.edges, g.target)
  {
    IdsAppend(g.source, g.target);
    forall k | 0 <= k < |g.source| ensures g.source[k].id in EdgeMap(g.edges) {
      assert g.source[k].id == Ids(g.source + g.target)[k];
    }
    forall k | 0 <= k < |g.target| ensures g.target[k].id in EdgeMap(g.edges) {
      assert g.target[k].id == Ids(g.source + g.target)[|g.source| + k];
    }
  }

  /** The token an entry of a raw stream carries. */
  function Carried(d: Diff): Token
    requires !d.Edited?
  {
    if d.Dragged? then d.source else d.target
  }

  /** A tagged token carries the edge `edge_map` gives for its id. */
  predicate Truthful(x: Tagged, edges: seq<Edge>) {
    x.token.id in EdgeMap(edges) && x.edge == EdgeMap(edges)[x.token.id]
  }

  /** A raw step carrying the id and labels of the edge owning its token. */
  predicate StepTagged(d: Diff, edges: seq<Edge>) {
    && !d.Edited?
    && Carried(d).id in EdgeMap(edges)
    && d.id == EdgeMap(edges)[Carried(d).id].id
    && d.labels == EdgeMap(edges)[Carried(d).id].labels
  }

  predicate TaggedBy(ds: seq<Diff>, edges: seq<Edge>) {
    forall d | d in ds :: StepTagged(d, edges)
  }

  lemma EmitOne(c: Change)
    ensures Sources(Emit(c)) == Tokens(Left(c))
    ensures Targets(Emit(c)) == Tokens(Right(c))
  {
    match c
    case Both(a, b) =>
      SidesCons(Drop(b), []);
      SidesCons(Drag(a), [Drop(b)]);
    case OnlyA(a) =>
      SidesCons(Drag(a), []);
    case OnlyB(b) =>
      SidesCons(Drop(b), []);
  }

  /** Emitting an alignment lists the source tokens as `Dragged` steps and
      the target tokens as `Dropped` steps, each side in order. */
  lemma {:induction false} EmitSides(cs: seq<Change>)
    ensures Sources(EmitAll(cs)) == Tokens(Lefts(cs))
    ensures Targets(EmitAll(cs)) == Tokens(Rights(cs))
  {
    EmitSources(cs);
    EmitTargets(cs);
  }

  lemma {:induction false} EmitSources(cs: seq<Change>)
    ensures Sources(EmitAll(cs)) == Tokens(Lefts(cs))
  {
    if cs != [] {
      var c, rest := cs[0], cs[1..];
      EmitSources(rest);
      assert cs == [c] + rest;
      ChangeCons(c, rest);
      TokensAppend(Left(c), Lefts(rest));
      SidesAppend(Emit(c), EmitAll(rest));
      EmitOne(c);
    }
  }

  lemma {:induction false} EmitTargets(cs: seq<Change>)
    ensures Targets(EmitAll(cs)) == Tokens(Rights(cs))
  {
    if cs != [] {
      var c, rest := cs[0], cs[1..];
      EmitTargets(rest);
      assert cs == [c] + rest;
      ChangeCons(c, rest);
      TokensAppend(Right(c), Rights(rest));
      SidesAppend(Emit(c), EmitAll(rest));
      EmitOne(c);
    }
  }

  lemma TokensAppend(a: seq<Tagged>, b: seq<Tagged>)
    ensures Tokens(a + b) == Tokens(a) + Tokens(b)
  {
  }

  /** Emitting an alignment of truthfully tagged tokens tags every step
      with its owning edge. */
  lemma {:induction false} EmitTagged(cs: seq<Change>, edges: seq<Edge>)
    requires forall x | x in Lefts(cs) :: Truthful(x, edges)
    requires forall x | x in Rights(cs) :: Truthful(x, edges)
    ensures TaggedBy(EmitAll(cs), edges)
  {
    if cs != [] {
      var c, rest := cs[0], cs[1..];
      assert cs == [c] + rest;
      ChangeCons(c, rest);
      EmitTagged(rest, edges);
      EmitOneTagged(c, edges);
      TaggedAppend(Emit(c), EmitAll(rest), edges);
    }
  }

  lemma EmitOneTagged(c: Change, edges: seq<Edge>)
    requires forall x | x in Left(c) :: Truthful(x, edges)
    requires forall x | x in Right(c) :: Truthful(x, edges)
    ensures TaggedBy(Emit(c), edges)
  {
    if !c.OnlyB? {
      assert c.a in Left(c);
    }
    if !c.OnlyA? {
      assert c.b in Right(c);
    }
  }

  lemma TaggedAppend(a: seq<Diff>, b: seq<Diff>, edges: seq<Edge>)
    requires TaggedBy(a, edges) && TaggedBy(b, edges)
    ensures TaggedBy(a + b, edges)
  {
  }

  /** `calculate_raw_diff` emits each source token exactly once as a
      `Dragged` step and each target token exactly once as a `Dropped` step,
      each side in its original order, and tags every step with the id and
      labels of the edge owning its token. */
  lemma RawDiffCoverage(g: Graph)
    requires Covered(g)
    ensures Owned(g.edges, g.source) && Owned(g.edges, g.target)
    ensures var r := RawDiff(g);
            && Sources(r) == g.source
            && Targets(r) == g.target
            && Raw(r)
            && TaggedBy(r, g.edges)
  {
    CoveredOwned(g);
    var xs := Tag(g.edges, g.source);
    var ys := Tag(g.edges, g.target);
    var cs := Align(xs, ys);
    AlignSound(xs, ys);
    TagTruthful(g.edges, g.source);
    TagTruthful(g.edges, g.target);
    EmitSides(cs);
    EmitTagged(cs, g.edges);
  }

  /** With disjoint edges, the edge each token is tagged with is the one
      and only edge of the graph that lists the token. */
  lemma TagTruthful(edges: seq<Edge>, ts: seq<Token>)
    requires Owned(edges, ts)
    ensures forall x | x in Tag(edges, ts) :: Truthful(x, edges)
    ensures Disjoint(edges) ==>
              forall k, j | 0 <= k < |ts| && 0 <= j < |edges| && ts[k].id in edges[j].ids ::
                Tag(edges, ts)[k].edge == edges[j]
  {
    if Disjoint(edges) {
      forall k, j | 0 <= k < |ts| && 0 <= j < |edges| && ts[k].id in edges[j].ids
        ensures Tag(edges, ts)[k].edge == edges[j]
      {
        EdgeMapOwner(edges, j, ts[k].id);
      }
    }
  }

  // ---------------------------------------------------------------------
  // Merging contiguous edits
  // ---------------------------------------------------------------------

  /** The stream positions, from `k` on, of the entries with edge id `id`
      (the reverse index `merge_diff` builds). */
  function Positions(ds: seq<Diff>, id: string, k: nat): seq<nat>
    requires k <= |ds|
    decreases |ds| - k
  {
    if k == |ds| then []
    else (if ds[k].id == id then [k] else []) + Positions(ds, id, k + 1)
  }

  /** The positions listed are exactly those, from `k` on, whose entry has
      the id, in increasing order. */
  lemma {:induction false} PositionsSpec(ds: seq<Diff>, id: string, k: nat)
    requires k <= |ds|
    ensures var r := Positions(ds, id, k);
            && (forall p :: p in r <==> k <= p < |ds| && ds[p].id == id)
            && (forall a, b | 0 <= a < b < |r| :: r[a] < r[b])
    decreases |ds| - k
  {
    if k < |ds| {
      PositionsSpec(ds, id, k + 1);
      var rest := Positions(ds, id, k + 1);
      forall b | 0 <= b < |rest| ensures k < rest[b] {
        assert rest[b] in rest;
      }
    }
  }

  /** The position list is pinned down by the positions it must hold. */
  lemma {:induction false} PositionsExact(ds: seq<Diff>, id: string, k: nat, m: seq<nat>)
    requires k <= |ds|
    requires forall a, b | 0 <= a < b < |m| :: m[a] < m[b]
    requires forall p: nat :: p in m <==> k <= p < |ds| && ds[p].id == id
    ensures Positions(ds, id, k) == m
    decreases |ds| - k
  {
    if k == |ds| {
      HeadIn(m);
    } else if ds[k].id == id {
      PositionsHead(ds, id, k, m);
      PositionsExact(ds, id, k + 1, m[1..]);
      assert m == [k] + m[1..];
    } else {
      PositionsExact(ds, id, k + 1, m);
    }
  }

  /** When the entry at `k` has the id, the list starts with `k` and its
      tail holds the positions from `k + 1` on. */
  lemma PositionsHead(ds: seq<Diff>, id: string, k: nat, m: seq<nat>)
    requires k < |ds| && ds[k].id == id
    requires forall a, b | 0 <= a < b < |m| :: m[a] < m[b]
    requires forall p: nat :: p in m <==> k <= p < |ds| && ds[p].id == id
    ensures m != [] && m[0] == k
    ensures forall a, b | 0 <= a < b < |m[1..]| :: m[1..][a] < m[1..][b]
    ensures forall p: nat :: p in m[1..] <==> k + 1 <= p < |ds| && ds[p].id == id
  {
    assert k in m;
    var i :| 0 <= i < |m| && m[i] == k;
    assert m[0] in m;
    forall p: nat ensures p in m[1..] <==> k + 1 <= p < |ds| && ds[p].id == id {
      if p in m[1..] {
        var j :| 0 <= j < |m[1..]| && m[1..][j] == p;
        assert m[j + 1] == p && m[0] < m[j + 1];
        assert p in m;
      }
      if k + 1 <= p < |ds| && ds[p].id == id {
        assert p in m && p != m[0];
        var j :| 0 <= j < |m| && m[j] == p;
        assert j > 0 && m[1..][j - 1] == p;
      }
    }
  }

  lemma HeadIn(m: seq<nat>)
    ensures m != [] ==> m[0] in m
  {
  }

  /** The model's reading of `Utils.contiguous`: each position is one past
      the previous, so a single position counts as contiguous. */
  predicate Contiguous(m: seq<nat>) {
    forall k | 0 <= k < |m| - 1 :: m[k + 1] == m[k] + 1
  }

  lemma {:induction false} ContiguousRange(m: seq<nat>, k: nat)
    requires Contiguous(m) && k < |m|
    ensures m[k] == m[0] + k
  {
    if k > 0 {
      ContiguousRange(m, k - 1);
    }
  }

  /** The positions of `id` in the whole stream. */
  function Run(ds: seq<Diff>, id: string): seq<nat> {
    Positions(ds, id, 0)
  }

  lemma RunSpec(ds: seq<Diff>, id: string)
    ensures forall p: nat :: p in Run(ds, id) <==> p < |ds| && ds[p].id == id
    ensures forall a, b | 0 <= a < b < |Run(ds, id)| :: Run(ds, id)[a] < Run(ds, id)[b]
  {
    PositionsSpec(ds, id, 0);
  }

  /** The `Edited` entry for a run: its `Dragged` tokens as the source
      side, its `Dropped` tokens as the target side, order kept, and the id
      and labels of its first entry. */
  function Group(run: seq<Diff>): (r: Diff)
    requires run != []
  {
    Edited(Sources(run), Targets(run), run[0].id, run[0].labels)
  }

  /** Where `merge_diff` continues after position `i`: past the whole run
      of its edge when that run is contiguous (the slice is cut at the end
      of the stream), otherwise at the next position. */
  function Next(ds: seq<Diff>, i: nat): (j: nat)
    requires i < |ds|
    ensures i < j <= |ds|
  {
    var m := Run(ds, ds[i].id);
    RunSpec(ds, ds[i].id);
    assert i in m;
    if Contiguous(m) then (if i + |m| < |ds| then i + |m| else |ds|) else i + 1
  }

  /** The entry `merge_diff` emits at position `i`. */
  function Head(ds: seq<Diff>, i: nat): Diff
    requires i < |ds|
  {
    if Contiguous(Run(ds, ds[i].id)) then Group(ds[i..Next(ds, i)]) else ds[i]
  }

  /** `merge_diff`, from stream position `i`. */
  function MergeFrom(ds: seq<Diff>, i: nat): seq<Diff>
    requires i <= |ds|
    decreases |ds| - i
  {
    if i == |ds| then [] else [Head(ds, i)] + MergeFrom(ds, Next(ds, i))
  }

  function MergeDiff(ds: seq<Diff>): seq<Diff> {
    MergeFrom(ds, 0)
  }

  /** `calculate_diff`. */
  function CalculateDiff(g: Graph): seq<Diff>
    requires Owned(g.edges, g.source) && Owned(g.edges, g.target)
  {
    MergeDiff(RawDiff(g))
  }

  /** The entry emitted at `i` stands for the tokens of the entries it
      consumes. */
  lemma HeadSides(ds: seq<Diff>, i: nat)
    requires i < |ds|
    ensures SourcesOf(Head(ds, i)) == Sources(ds[i..Next(ds, i)])
    ensures TargetsOf(Head(ds, i)) == Targets(ds[i..Next(ds, i)])
  {
    if !Contiguous(Run(ds, ds[i].id)) {
      assert ds[i..i + 1] == [ds[i]] + [];
      SidesCons(ds[i], []);
    }
  }

  /** Merging keeps both sides of the stream: the source tokens, and the
      target tokens, read off the merged diff are those of the raw one, in
      the same order. */
  lemma {:induction false} MergeFromSides(ds: seq<Diff>, i: nat)
    requires i <= |ds|
    ensures Sources(MergeFrom(ds, i)) == Sources(ds[i..])
    ensures Targets(MergeFrom(ds, i)) == Targets(ds[i..])
    decreases |ds| - i
  {
    if i < |ds| {
      var j := Next(ds, i);
      MergeFromSides(ds, j);
      MergeStep(ds, i, j);
      SliceSides(ds, i, j);
    }
  }

  /** One step of `merge_diff` emits the entry standing for `ds[i..j]`. */
  lemma MergeStep(ds: seq<Diff>, i: nat, j: nat)
    requires i < |ds| && j == Next(ds, i)
    ensures Sources(MergeFrom(ds, i)) == Sources(ds[i..j]) + Sources(MergeFrom(ds, j))
    ensures Targets(MergeFrom(ds, i)) == Targets(ds[i..j]) + Targets(MergeFrom(ds, j))
  {
    HeadSides(ds, i);
    SidesCons(Head(ds, i), MergeFrom(ds, j));
  }

  lemma SliceSides(ds: seq<Diff>, i: nat, j: nat)
    requires i <= j <= |ds|
    ensures Sources(ds[i..]) == Sources(ds[i..j]) + Sources(ds[j..])
    ensures Targets(ds[i..]) == Targets(ds[i..j]) + Targets(ds[j..])
  {
    assert ds[i..] == ds[i..j] + ds[j..];
    SidesAppend(ds[i..j], ds[j..]);
  }

  /** `merge_diff` keeps the source and the target tokens of the stream,
      each side in order. */
  lemma MergeSides(ds: seq<Diff>)
    ensures Sources(MergeDiff(ds)) == Sources(ds)
    ensures Targets(MergeDiff(ds)) == Targets(ds)
  {
    MergeFromSides(ds, 0);
    assert ds[0..] == ds;
  }

  /** The diff, merged or not, covers the graph: every source token once,
      every target token once, in order. */
  lemma DiffCoverage(g: Graph)
    requires Covered(g)
    ensures Owned(g.edges, g.source) && Owned(g.edges, g.target)
    ensures Sources(CalculateDiff(g)) == g.source
    ensures Targets(CalculateDiff(g)) == g.target
  {
    RawDiffCoverage(g);
    MergeSides(RawDiff(g));
  }

  // ---------------------------------------------------------------------
  // Reference definition of merging
  // ---------------------------------------------------------------------

  /** What position `i` contributes to the merged diff, decided from the
      whole stream: an edge whose positions are contiguous yields one
      `Edited` entry for all of them, at its first position; any other
      entry is kept as it is. */
  function Contribution(ds: seq<Diff>, i: nat): seq<Diff>
    requires i < |ds|
  {
    var m := Run(ds, ds[i].id);
    RunSpec(ds, ds[i].id);
    assert i in m;
    if !Contiguous(m) then [ds[i]]
    else if m[0] != i then []
    else
      ContiguousRange(m, |m| - 1);
      assert m[|m| - 1] in m;
      [Group(ds[i..i + |m|])]
  }

  function Reference(ds: seq<Diff>, i: nat): seq<Diff>
    requires i <= |ds|
    decreases |ds| - i
  {
    if i == |ds| then [] else Contribution(ds, i) + Reference(ds, i + 1)
  }

  /** No entry before `i` shares its edge id with a contiguous run at or
      after `i`. */
  predicate Settled(ds: seq<Diff>, i: nat)
    requires i <= |ds|
  {
    forall j, p | 0 <= j < i <= p < |ds| && ds[j].id == ds[p].id :: !Contiguous(Run(ds, ds[p].id))
  }

  /** At a settled position a contiguous run starts exactly there and ends
      inside the stream. */
  lemma RunStart(ds: seq<Diff>, i: nat)
    requires i < |ds| && Settled(ds, i) && Contiguous(Run(ds, ds[i].id))
    ensures var m := Run(ds, ds[i].id);
            0 < |m| && m[0] == i && i + |m| <= |ds| && Next(ds, i) == i + |m|
  {
    var m := Run(ds, ds[i].id);
    RunSpec(ds, ds[i].id);
    assert i in m;
    assert m[0] in m;
    ContiguousRange(m, |m| - 1);
    assert m[|m| - 1] in m;
  }

  /** Positions inside a run, after its first one, contribute nothing. */
  lemma SkipRun(ds: seq<Diff>, i: nat, a: nat)
    requires i < a <= |ds|
    requires var m := Run(ds, ds[i].id);
             Contiguous(m) && 0 < |m| && m[0] == i && i + |m| <= |ds| && a <= i + |m|
    ensures Reference(ds, a) == Reference(ds, i + |Run(ds, ds[i].id)|)
  {
    var e := i + |Run(ds, ds[i].id)|;
    forall b | a <= b < e
      ensures Contribution(ds, b) == []
    {
      InsideRun(ds, i, b);
    }
    SkipEmpty(ds, a, e);
  }

  /** Positions that contribute nothing leave the reference unchanged. */
  lemma {:induction false} SkipEmpty(ds: seq<Diff>, a: nat, e: nat)
    requires a <= e <= |ds|
    requires forall b | a <= b < e :: Contribution(ds, b) == []
    ensures Reference(ds, a) == Reference(ds, e)
    decreases e - a
  {
    if a < e {
      SkipEmpty(ds, a + 1, e);
      ReferenceUnfold(ds, a);
      assert [] + Reference(ds, a + 1) == Reference(ds, a + 1);
    }
  }

  /** One step of the reference definition. */
  lemma ReferenceUnfold(ds: seq<Diff>, a: nat)
    requires a < |ds|
    ensures Reference(ds, a) == Contribution(ds, a) + Reference(ds, a + 1)
  {
  }

  /** A position of a contiguous run after its first contributes nothing. */
  lemma InsideRun(ds: seq<Diff>, i: nat, a: nat)
    requires i < a < |ds|
    requires var m := Run(ds, ds[i].id);
             Contiguous(m) && 0 < |m| && m[0] == i && a < i + |m|
    ensures Contribution(ds, a) == []
  {
    var m := Run(ds, ds[i].id);
    RunSpec(ds, ds[i].id);
    ContiguousRange(m, a - i);
    assert m[a - i] in m;
    assert Run(ds, ds[a].id) == m;
  }

  /** Leaving a contiguous run settles everything before its end. */
  lemma SettleRun(ds: seq<Diff>, i: nat)
    requires i < |ds| && Settled(ds, i) && Contiguous(Run(ds, ds[i].id))
    requires 0 < |Run(ds, ds[i].id)| && Run(ds, ds[i].id)[0] == i
    requires i + |Run(ds, ds[i].id)| <= |ds|
    ensures Settled(ds, i + |Run(ds, ds[i].id)|)
  {
    var m := Run(ds, ds[i].id);
    RunSpec(ds, ds[i].id);
    var j := i + |m|;
    forall q, p | 0 <= q < j <= p < |ds| && ds[q].id == ds[p].id
      ensures !Contiguous(Run(ds, ds[p].id))
    {
      if q >= i {
        ContiguousRange(m, q - i);
        assert m[q - i] in m;
        assert p in m;
        var k :| 0 <= k < |m| && m[k] == p;
        ContiguousRange(m, k);
      }
    }
  }

  /** One step of the reference definition from a settled position: it
      produces the entry `merge_diff` emits there and moves to the same next
      position, which is settled again. */
  lemma ReferenceStep(ds: seq<Diff>, i: nat)
    requires i < |ds| && Settled(ds, i)
    ensures Reference(ds, i) == [Head(ds, i)] + Reference(ds, Next(ds, i))
    ensures Settled(ds, Next(ds, i))
  {
    if Contiguous(Run(ds, ds[i].id)) {
      RunStep(ds, i);
    } else {
      SingleStep(ds, i);
    }
  }

  lemma RunStep(ds: seq<Diff>, i: nat)
    requires i < |ds| && Settled(ds, i) && Contiguous(Run(ds, ds[i].id))
    ensures Reference(ds, i) == [Head(ds, i)] + Reference(ds, Next(ds, i))
    ensures Settled(ds, Next(ds, i))
  {
    var m := Run(ds, ds[i].id);
    RunStart(ds, i);
    var j := Next(ds, i);
    assert j == i + |m|;
    SkipRun(ds, i, i + 1);
    SettleRun(ds, i);
    assert Contribution(ds, i) == [Head(ds, i)];
    assert Reference(ds, i) == Contribution(ds, i) + Reference(ds, i + 1);
  }

  lemma SingleStep(ds: seq<Diff>, i: nat)
    requires i < |ds| && Settled(ds, i) && !Contiguous(Run(ds, ds[i].id))
    ensures Reference(ds, i) == [Head(ds, i)] + Reference(ds, Next(ds, i))
    ensures Settled(ds, Next(ds, i))
  {
    assert Contribution(ds, i) == [Head(ds, i)];
    SingleSettles(ds, i);
  }

  /** Past an entry whose edge is not contiguous, the stream stays
      settled. */
  lemma SingleSettles(ds: seq<Diff>, i: nat)
    requires i < |ds| && Settled(ds, i) && !Contiguous(Run(ds, ds[i].id))
    ensures Settled(ds, i + 1)
  {
  }

  /** From a settled position on, `merge_diff` agrees with the reference
      definition. */
  lemma {:induction false} MergeFromReference(ds: seq<Diff>, i: nat)
    requires i <= |ds| && Settled(ds, i)
    ensures MergeFrom(ds, i) == Reference(ds, i)
    decreases |ds| - i
  {
    if i < |ds| {
      ReferenceStep(ds, i);
      MergeFromReference(ds, Next(ds, i));
    }
  }

  /** `merge_diff` turns exactly the edges whose entries are contiguous in
      the stream into single `Edited` entries, at the place of their first
      entry, and leaves every other entry as it is. */
  lemma MergeMatchesReference(ds: seq<Diff>)
    ensures MergeDiff(ds) == Reference(ds, 0)
  {
    MergeFromReference(ds, 0);
  }
}
