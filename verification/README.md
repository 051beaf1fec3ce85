# Token-alignment graph of the learner-corpus editor

This project models the core of an editor for parallel learner-language
corpora. It covers two parts.

- **The alignment graph** (`src/Graph.ts`). A source text and its corrected
  target text are each a sequence of tokens. Every token carries its
  trailing whitespace and an id: `s<n>` on the source side, `t<n>` on the
  target side. Edges group token ids from both sides into correction units
  and carry labels. The model covers:
  - the tokenizer, `init` and `init_from`;
  - the invariant and its checker `check_invariant`;
  - `edge_map`, `edge_at` and `related`;
  - the text projector: `token_at`, `modify` and `modify_tokens`, with their
    neighbour-absorbing rules and edge reconciliation;
  - `rearrange`;
  - the diff engine, which aligns both sides by owning edge, emits
    `Dragged`/`Dropped` steps, and merges each edge whose steps are
    contiguous into one `Edited` entry.
- **The label classifier** (`src/Editor/Config.ts`). This covers
  `label_order`, `find_label`, `label_taxonomy`, `label_group`,
  `taxonomy_has_label` and `taxonomy_is_expanded`. The taxonomies are
  passed to each lookup as data instead of being read from the editor's
  static configuration.

## Files

| file | module | contents |
|---|---|---|
| `seqs.dfy` | `Seqs` | `Option`/`Result`, duplicate-freedom, the first-repeat scan, ordered set insertion |
| `tokenizer.dfy` | `Tokenizer` | whitespace classes, token shape, `tokenize` |
| `ids.dfy` | `Identity` | token ids, their printed names, edge names, `next_id` |
| `graph.dfy` | `Graphs` | tokens, edges, graphs, the invariant, `check_invariant`, `init`, `edge_map`, `edge_at`, `related` |
| `projector.dfy` | `Projector` | `token_at`, `modify_tokens`, `modify` |
| `rearrange.dfy` | `Reordering` | `Utils.rearrange` and `rearrange` |
| `diff.dfy` | `Diffs` | `calculate_raw_diff`, `merge_diff`, `calculate_diff` |
| `config.dfy` | `Labels` | label categories and taxonomy lookups |
| `walkthrough.dfy` | `Walkthrough` | the two documented `calculate_diff` examples, worked out in full |

## Where the model follows the code rather than the documentation

- **Identities are not always stable.** `modify_tokens` does more than
  replace the requested tokens. It absorbs neighbouring tokens while the
  replacement is only whitespace or ends in a word, and then re-mints ids
  for everything it absorbed.
- **Ids can be reused.** New ids come from `Utils.next_id` over the
  *current* target ids. Under the model's reading of `next_id` (one more
  than the largest number in use; see "## Left out"), an id freed by
  deleting the highest-numbered target token can be handed out again.
  Nothing in `src/Graph.ts` decides this; a `next_id` that never reuses a
  number would not allow it.
- **Edge ids keep insertion order.** An edge id is its member ids joined
  with `-` in the order they were added, with no sorting. This gives edge
  ids such as `t3-t4-s1`.
- **`check_invariant` does not require coverage.** It does not check that
  every token belongs to some edge. Coverage (`Graphs.Covered`) is a
  separate property. The diff needs every token's id to be listed by some
  edge (`Diffs.Owned`, implied by coverage); without it the source fails
  with a `TypeError`. `init`, `modify` and `rearrange` preserve coverage.
- **`rearrange` includes both ends.** It moves tokens `begin..end` with
  both ends included.

## Model

| member | source | states |
|---|---|---|
| Tokenizer.TokenizeSpec | src/Graph.ts:70-81 | blank text yields no tokens; otherwise the tokens concatenate back to the text, every token but the last ends in whitespace, and the last ends in whitespace exactly when the text does |
| Tokenizer.TokenizeClosed | src/Graph.ts:79-81 | text ending in whitespace tokenizes into tokens that all end in whitespace |
| Identity.NatStrInjective | src/Graph.ts:97-104 | distinct numbers print as distinct decimal suffixes, so `'s' + i` ids never collide |
| Identity.EdgeNameInjective | src/Graph.ts:20-22 | two id lists give the same joined edge name exactly when they are the same list |
| Identity.NextId | src/Graph.ts:294 | the next id exceeds every numeric suffix in use, is one more than some suffix, and is 0 for an empty target |
| Graphs.EdgeIdentity | src/Graph.ts:20-22 | two constructed edges have the same id exactly when they group the same ids in the same order, whatever their labels |
| Seqs.FirstRepeat | src/Graph.ts:39-43 | the duplicate-id scan finds nothing exactly when the ids are pairwise distinct, and what it reports does occur twice |
| Graphs.ShapeFault | src/Graph.ts:44-52 | the token-shape check passes exactly when every token is whitespace-led word text, the non-final ones ending in whitespace; a failure names a bad non-final token or the bad last token |
| Graphs.EdgeFaultSpec | src/Graph.ts:53-61 | the edge-list check passes exactly when the edge ids are distinct and all are token ids; a failure names an id that repeats or that is unknown |
| Graphs.DisjointIffDistinct | src/Graph.ts:54-61 | the edge id lists have no repeated id overall exactly when every edge is duplicate-free and no two edges share an id |
| Graphs.CheckInvariant | src/Graph.ts:28-68 | `ok` exactly when the invariant holds; a reported duplicate token id occurs twice among the tokens; a reported unknown edge id is listed by an edge and belongs to no token |
| Graphs.EdgeMapLastWins | src/Graph.ts:24-26 | for an id listed by several edges, `edge_map` keeps the last edge listing it |
| Graphs.EdgeMapOwner | src/Graph.ts:24-26 | when edges are disjoint, `edge_map` sends each listed id to the one edge that lists it |
| Graphs.EdgeAt | src/Graph.ts:106-122 | fails exactly when the index is past the target or the token is in no edge (out of range only in the first case); otherwise it returns the first edge listing the token |
| Graphs.EdgeAtAgreesWithEdgeMap | src/Graph.ts:112-122 | when edges are disjoint, `edge_at` succeeds exactly when `edge_map` knows the token, and returns the same edge |
| Graphs.Related | src/Graph.ts:112-132 | succeeds exactly when `edge_at` does, failing with its fault otherwise; on success it is the whole id list of the first edge holding the token, which includes the token's own id |
| Graphs.RelatedGroup | src/Graph.ts:112-132 | with disjoint edges, an id is related to the token exactly when `edge_map` sends it to the same edge as the token's own id |
| Graphs.TextAppend | src/Graph.ts:134-141 | the text of two token runs is the concatenation of their texts |
| Graphs.InitFromInvariant | src/Graph.ts:97-104 | the graph built from tokens passes `check_invariant` exactly when the tokens are well-shaped, and every token is in an edge |
| Graphs.InitFromEdges | src/Graph.ts:97-104 | the edges of `init_from` list every token id exactly once and nothing else |
| Graphs.InitFromEdgeAt | src/Graph.ts:106-122 | in `init_from`, target token `i` lies in edge `s<i>-t<i>` with ids `[s<i>, t<i>]`; past the end, `edge_at` is out of range |
| Graphs.InitInvariant | src/Graph.ts:84-95 | `init` always passes `check_invariant`, and both sides spell the input text (nothing for blank text) |
| Projector.TokenAt | src/Graph.ts:189-211 | fails exactly past the end of the text; otherwise it names a token and an offset inside it whose position in the concatenated text is the given character |
| Projector.TokenAtMonotone | src/Graph.ts:201-211 | a later character never lies in an earlier token |
| Projector.Locate | src/Graph.ts:233-236 | both offsets resolve exactly when the end offset is inside the text, and each resolved position points at its character |
| Projector.Absorb | src/Graph.ts:268-289 | the absorbing recursion only widens the token range, and stops only when the text is not whitespace touching a neighbour and does not end in a word before the last token |
| Projector.AbsorbReach | src/Graph.ts:260-289 | on a well-shaped target the absorbing takes at most one neighbour: the previous token exactly when the text is only whitespace and one exists, otherwise the next token exactly when the text is only whitespace or ends in a word and one exists |
| Projector.AbsorbText | src/Graph.ts:269-289 | the absorbed text is the replacement surrounded by exactly the texts of the absorbed neighbours |
| Projector.FreshTokens | src/Graph.ts:294-295 | the created tokens carry exactly the new texts, in order, on pairwise distinct target-side ids numbered from the offset up, so none collides with an older id below the offset |
| Projector.ModifyTokensFrame | src/Graph.ts:260-296 | the new target keeps the old tokens before and after the absorbed range, ids included, around the tokens of the re-tokenized absorbed text, whose ids count up from `next_id` |
| Projector.ModifyTokensReach | src/Graph.ts:260-296 | on a well-shaped target every token before `from - 1` and after `to` survives the edit unchanged, in place counted from its end of the target |
| Projector.ModifyTokensText | src/Graph.ts:243-311 | on a well-shaped target, the new target text is the old text with the replaced tokens' text swapped for the replacement, or empty when the whole result is whitespace |
| Projector.Kept | src/Graph.ts:300-308 | the surviving edges are exactly the edges that touch no removed id |
| Projector.KeptIds | src/Graph.ts:300-308 | the surviving edges list only unremoved ids that the old edges listed, and no id twice if the old edges listed none twice |
| Projector.Survivors | src/Graph.ts:301-302 | the ids carried into the merged edge are exactly the unremoved ids of the edges that touch a removed id |
| Projector.MergedLabels | src/Graph.ts:303 | the merged labels are exactly the labels of the edges that touch a removed id |
| Projector.ReconcileEdges | src/Graph.ts:296-309 | the untouched edges stay in order, followed by one new edge whose ids start with the created ids, in order, and are what adding the survivors of the touched edges to them, as `Set.add` does, leaves; it carries all their labels, each once, and is named by its ids |
| Projector.ReconcileOrder | src/Graph.ts:296-309 | when the created ids and the survivors are distinct and share no id, the merged edge lists exactly the created ids followed by the survivors edge by edge |
| Projector.ReconcileExample | src/Graph.ts:417-435 | on three edges shaped like those of `init`, removing `t1` and creating `t3` and `t4` keeps the first and last edge and adds the edge `t3-t4-s1` over ids `t3`, `t4`, `s1` with no labels |
| Projector.ReconcileInvariant | src/Graph.ts:297-309 | after the splice, edge ids stay distinct and every edge id names an existing token |
| Projector.ReconcileCovered | src/Graph.ts:297-309 | if every old token was in an edge, every token of the new graph is in an edge |
| Projector.ModifyTokensInvariant | src/Graph.ts:268-311 | `modify_tokens` keeps the invariant, keeps every id on its own side, and keeps coverage, unless it appends after a last token without trailing whitespace |
| Projector.SpanKeeps | src/Graph.ts:237-240 | replacing the target tokens `first..last`, both ends included, as `modify` does, keeps the invariant, keeps every id on its own side, and keeps coverage |
| Projector.Modify | src/Graph.ts:233-241 | fails exactly when the end offset is past the target text, and never touches the source |
| Projector.ModifyText | src/Graph.ts:213-241 | the new target text is the old one with characters `from..to` replaced by the text, or empty when that leaves only whitespace |
| Projector.ModifyInvariant | src/Graph.ts:225-240 | `modify` keeps the invariant, keeps every id on its own side, and keeps coverage |
| Reordering.Landing | src/Graph.ts:319-321 | the landing place of the moved run lies within the tokens that remain once the run is cut out |
| Reordering.MoveShape | src/Graph.ts:319-321 | the moved run arrives intact at its landing place, and the other tokens keep their relative order around it |
| Reordering.MovePermutation | src/Graph.ts:319-321 | moving a run permutes the tokens |
| Reordering.MoveUndo | src/Graph.ts:319-321 | moving the run back from where it landed restores the original order |
| Reordering.Rearrange | src/Graph.ts:313-321 | `rearrange` leaves source and edges unchanged and permutes the target |
| Reordering.RearrangeInvariant | src/Graph.ts:313-321 | when every target token ends in whitespace, `rearrange` keeps the invariant, the sides of the ids and coverage |
| Reordering.RearrangeExample | src/Graph.ts:315 | moving tokens 1..2 of `apa bepa cepa depa` to the front gives `bepa cepa apa depa` |
| Reordering.RearrangeNeedsClosed | src/Graph.ts:319-321 | moving a final token that lacks trailing whitespace to the front breaks the invariant |
| Diffs.Tag | src/Graph.ts:322-327 | the tagged sequence drops back to exactly the tokens, in order, and pairs each token with an edge of the graph that lists its id |
| Diffs.TagTruthful | src/Graph.ts:322-327 | each tag agrees with `edge_map`, and when edges are disjoint the edge a token is tagged with is the only edge of the graph listing it |
| Diffs.AlignSound | src/Graph.ts:328 | the alignment lists every source and every target token once, each side in order, and pairs only tokens whose edge ids agree |
| Diffs.AlignMaximal | src/Graph.ts:328 | no order-preserving alignment that pairs only tokens with equal edge ids pairs more tokens than the chosen one: it is a longest common subsequence of the two edge-id sequences |
| Diffs.EmitSides | src/Graph.ts:329-342 | the emitted steps carry exactly the aligned source tokens as `Dragged` and the aligned target tokens as `Dropped`, in order |
| Diffs.EmitTagged | src/Graph.ts:329-342 | every emitted step is a `Dragged` or `Dropped` step carrying the id and labels of the edge owning its token |
| Diffs.RawDiffCoverage | src/Graph.ts:323-343 | on a covered graph, the raw diff emits each source token once and each target token once, each side in its original order, and tags each step with its owning edge |
| Diffs.PositionsSpec | src/Graph.ts:347-355 | the reverse index lists exactly the stream positions of an edge id, in increasing order |
| Diffs.ContiguousRange | src/Graph.ts:360 | a contiguous position list is an interval starting at its first position |
| Diffs.Next | src/Graph.ts:357-371 | the merge loop always advances, and never past the end of the stream |
| Diffs.MergeSides | src/Graph.ts:356-373 | merging keeps the source tokens and the target tokens of the stream, each in order |
| Diffs.MergeMatchesReference | src/Graph.ts:345-374 | merging collapses exactly the edges whose stream positions are contiguous into one `Edited` entry, placed at their first position, and keeps every other entry unchanged |
| Diffs.DiffCoverage | src/Graph.ts:439-441 | the merged diff of a covered graph still lists every source token once and every target token once, in order |
| Walkthrough.RotatedDiff | src/Graph.ts:376-407 | for any three-token graph whose target is its source rotated left by one, each token sharing an edge of its own with its copy, the diff drags the first source token, edits the other two in place and drops the first token's copy last |
| Walkthrough.RearrangeDiffExample | src/Graph.ts:376-407 | `calculate_diff(rearrange(init('apa bepa cepa '), 1, 2, 0))` is exactly the documented list: `apa ` dragged on `s0-t0`, `bepa ` and `cepa ` edited in place on `s1-t1` and `s2-t2`, `apa ` dropped on `s0-t0`, all without labels |
| Walkthrough.ExampleInit | src/Graph.ts:84-104 | `init('apa bepa cepa ')` has the tokens `apa `, `bepa `, `cepa ` on both sides, numbered from 0, and the label-less edges `s0-t0`, `s1-t1`, `s2-t2` pairing them |
| Walkthrough.ExampleModified | src/Graph.ts:243-311 | `modify_tokens(init('apa bepa cepa '), 1, 2, 'depa epa ')` replaces `t1` by `t3` and `t4`, keeps the edges `s0-t0` and `s2-t2`, and appends the edge `t3-t4-s1` |
| Walkthrough.SplitDiff | src/Graph.ts:409-436 | for any graph whose middle target token was replaced by two tokens on a new edge that also lists the middle source token, the diff is three in-place edits, the middle one from one token to two |
| Walkthrough.ModifyDiffExample | src/Graph.ts:409-436 | `calculate_diff(modify_tokens(init('apa bepa cepa '), 1, 2, 'depa epa '))` is exactly the documented list: three edits, `apa ` on `s0-t0`, `bepa ` into `depa ` and `epa ` on `t3-t4-s1`, `cepa ` on `s2-t2`, all without labels |
| Labels.LabelOrderClasses | src/Editor/Config.ts:54-77 | a label is temporary, extra or numeric exactly when it is in the respective class, and a base label exactly when it is in none |
| Labels.EntryWithLabel | src/Editor/Config.ts:2417 | finds an entry exactly when one carries the label, and the entry found carries it |
| Labels.FirstEntry | src/Editor/Config.ts:2417 | the entry found is the first entry of the group that carries the label |
| Labels.GroupWithLabel | src/Editor/Config.ts:2396-2398 | finds the first group directly listing the label, or none when no group does |
| Labels.LabelGroupFinds | src/Editor/Config.ts:2389-2399 | `label_group` finds a group exactly when some group of the anonymization taxonomy lists the label, and it finds the first such group |
| Labels.FoundIn | src/Editor/Config.ts:2415-2418 | one taxonomy reports nothing exactly when none of its groups lists the label, and otherwise its first group listing it with that group's first matching entry |
| Labels.Search | src/Editor/Config.ts:2414-2420 | the search fails exactly when no group of any taxonomy lists the label, and otherwise reports what the first taxonomy listing it reports, every earlier taxonomy listing it nowhere |
| Labels.FindLabel | src/Editor/Config.ts:2407-2421 | numbers are reported as anonymized numbers, temporary labels are never found, and any other label is searched for in the taxonomies |
| Labels.FindLabelListed | src/Editor/Config.ts:2407-2421 | a non-numeric label found is listed by the reported taxonomy and group; one not found is temporary or listed nowhere |
| Labels.FindLabelFirst | src/Editor/Config.ts:2406-2425 | a non-numeric, non-temporary label whose first listing in taxonomy order, group order and entry order is a given entry is reported with that taxonomy, group and description, and `label_taxonomy` gives that taxonomy |
| Labels.LabelTaxonomy | src/Editor/Config.ts:2423-2426 | a taxonomy is reported exactly when `find_label` finds the label; numbers belong to anonymization, and temporary labels belong to none |
| Labels.Named | src/Editor/Config.ts:2430-2431 | the named taxonomy is found exactly when one carries the name, and its groups are returned |
| Labels.TaxonomyHasLabel | src/Editor/Config.ts:2428-2435 | false for an unknown taxonomy; when true, a group of the named taxonomy holds the key, in a subgroup when the group has any |
| Labels.TaxonomyIsExpanded | src/Editor/Config.ts:2438-2445 | false for an unknown taxonomy; when true, a group of the named taxonomy shows the key, expanded together with its subgroup |
| Labels.TaxonomyLookupExact | src/Editor/Config.ts:2429-2445 | with uniquely named taxonomies, each predicate holds exactly when some group of the named taxonomy holds (or shows) the key |
| Labels.ExpandedHasLabel | src/Editor/Config.ts:2429-2445 | a label shown expanded is a label of that taxonomy |
| Labels.SubgroupsShadowEntries | src/Editor/Config.ts:2432-2434 | in a group with subgroups, only the subgroups' entries count |

## Left out

- **Not modelled.** These parts are outside the model:
  - the JSON rendering in error messages and the console output of `check_invariant`;
  - the exception machinery: the errors the source reports as values or messages are `Result`/`Option` values and a `Check` verdict; the errors it raises by accident are excluded by preconditions, as listed below;
  - the user interface code that calls into the core.
- **Regular expressions.** The tokenizer and the shape checks use JavaScript regular expressions. They are replaced by an explicit whitespace predicate. This predicate lists the code points JavaScript's `\s` matches.
- **Supporting `Utils` helpers.** `Utils.hdiff`, `Utils.rearrange`, `Utils.next_id`, `Utils.splice`, `Utils.contiguous`, `Utils.unique_check` and `Utils.flatMap` are not part of this model's sources.
  - Where a call site or a documentation example fixes a helper's behaviour, the model follows it. Where none does, the behaviour is the model's own choice. Three such choices are listed below.
  - `hdiff` is modelled as an order-preserving alignment that maximizes matched pairs by exhaustive search. The Myers algorithm's running time, and its choice among equally long alignments, are not modelled.
- Reordering.Landing: the rule for a destination after the moved run (shift it down by the run's length less one, then clamp) is the model's choice. Both calls of `rearrange` in the source (src/Graph.ts:315 and :406) move to destination 0, and nothing in `src/Graph.ts` fixes any other destination.
- Identity.NextId: "exactly one more than the largest number in use" is the model's choice. The examples at src/Graph.ts:259-265 (`t3` after `t0 t1 t2`, then `t3 t4`) agree with it, but they would also agree with a count of the ids. The id reuse described above follows from this choice.
- Diffs.Contiguous: treating a single position as contiguous is the model's choice. It makes an edge with one diff step give `Edited([s], [], …)` or `Edited([], [t], …)` instead of the bare Dragged or Dropped step. None of the documented diffs (src/Graph.ts:378-436) has a run of length one.
- Diffs.RawDiff and Diffs.CalculateDiff: require every token id to be listed by some edge (`Diffs.Owned`). When no edge lists a token, the source's `lookup` returns `undefined` and reading its `.id` (src/Graph.ts:326-327) throws a `TypeError`; the model does not produce that exception.
- Identity.EdgeNameInjective and Graphs.EdgeIdentity: hold only for ids of the form `s<n>` and `t<n>`, as `init` and `modify_tokens` mint them. Ids in the source are arbitrary strings (src/Graph.ts:15-17), and a graph loaded as JSON by the editor (src/Editor/ImportExport.tsx:44, src/Editor/View.tsx:630) may carry any. For such ids, joining with `-` is not injective: `Edge(['a-b', 'c'], []).id` and `Edge(['a', 'b-c'], []).id` are both `a-b-c`.
- `source_texts`, `target_texts`, `source_text` and `target_text`: these are one-line wrappers modelled as `Texts`, `Text`, `SourceText` and `TargetText`, with no contracts of their own.
- **Character offsets.** They are `nat`, so negative offsets cannot be expressed.
- Projector.Modify: requires `from <= to`, so inverted ranges are not modelled. The source accepts them and does not reject them:
  - Within one token, the characters between the two offsets come out twice. On `init('test graph hello')`, `modify(g, 3, 1, 'X')` becomes `modify_tokens(g, 0, 1, 'tesXest ')`.
  - Across tokens, the slice of touched tokens is empty, and `modify_tokens` is called with an end before its start. With whitespace, the absorbing can then duplicate a token: `modify(g, 12, 1, ' ')` inserts a second `graph`. Otherwise, as in `modify(g, 12, 1, 'Y ')`, `Utils.splice` gets a negative count, and that helper is not part of this model.
- **Offsets count code points.** Strings here are sequences of Unicode scalar values, while JavaScript string lengths and offsets count UTF-16 code units. For text outside the Basic Multilingual Plane, the character offsets of `modify` and `token_at` differ from the source's by one for each such character before the offset.
- Projector.ModifyTokensInvariant: requires that the edit start inside the target, or that the last target token end in whitespace. Appending after a final token without trailing whitespace leaves a non-final token without whitespace; `modify_tokens(init('test graph hello'), 3, 3, 'x ')` is an example. `modify` never makes such a call.
- Projector.Absorb: its own contract states only that the range widens and where the recursion stops. How far it reaches, one neighbour at most and which one, needs a well-shaped target and is stated by Projector.AbsorbReach.
- Projector.ModifyTokensText: requires a well-shaped target, because the absorbing rules rely on every non-final token ending in whitespace.
- Reordering.RearrangeInvariant: requires every target token to end in whitespace. Otherwise the invariant can fail, as Reordering.RearrangeNeedsClosed shows.
- Reordering.Landing: moving a run clamps the destination into range. Out-of-range destinations are not part of the documented behaviour.
- Diffs.MergeSides: states only that merging preserves each side's tokens. The full shape of the merged stream is stated by Diffs.MergeMatchesReference against the reference definition.
- `label_sort`, the static taxonomy tables, URLs, documentation strings and examples in `src/Editor/Config.ts`: these are data or presentation, not logic of the lookups.
- **Taxonomy lookup by name.** The JavaScript `in` test would also accept names inherited from `Object.prototype`. The model looks names up only among the listed taxonomies.
- Labels.TaxonomyHasLabel and Labels.TaxonomyIsExpanded: their own contracts give one direction. The converse holds for uniquely named taxonomies (Labels.TaxonomyLookupExact), which is what the configuration's record keys guarantee.
