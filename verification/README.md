# route-utils tree walker, in Dafny

This project models the route-tree engine of `src/index.ts` in the
route-utils library. A route tree is a list of nodes. Each node has a relative
`path` and optional `children`. The library:

- classifies what a visitor returns into the three control signals
  `TReturn { Skip = -1, Normal = 0, Break = 1 }` (`normalizeTReturn`,
  `isTBreak`);
- compares two slash-separated paths segment by segment (`matchPath`);
- walks a tree depth first with `enter`/`leave` callbacks (`traverse`). A
  callback can prune a subtree with Skip or abort the whole walk with Break;
- walks it breadth first with one matcher and collects the nodes the matcher
  did not skip (`bfsTraversal`);
- turns a target path or a visitor into a three-way predicate
  (`normalizeMatcher`) and returns the context at which it signals Break
  (`findNodeRef`);
- encodes a query object (`param`) and appends it to a resolved path
  (`resolveRoutePath`).

The Dafny modules follow that structure:

- `Signals`: JavaScript values as a visitor may return them, and both
  classifications.
- `Paths`: `split`/`join` on one separator, `indexOf`, and `matchPath`, with
  the loop as written.
- `Tree`: nodes, node references and the two foreign inputs of every walk.
- `Traverse`: the depth-first walk.
- `Bfs`: the breadth-first walk.
- `Locate`: `normalizeMatcher` and `findNodeRef`.
- `Query`: `param` and `resolveRoutePath`.
- `Seqs`: generic vocabulary for "stop at the first hit" and "remember the
  last hit".

Each walk is modelled as the sequence of callback calls it makes. Its main
theorem says that this sequence equals a break-free reference walk cut
after the first call whose result aborts. The reference walk is then related
to an independent order: pre-order for `traverse`, level order for
`bfsTraversal`.

Some functions belong to other libraries or other files: `resolveUrl`,
`encodeURIComponent`, the conversion of a value to a string, and
`fillParams` (src/params.ts is not part of this model). The model takes each
of them as a function-valued parameter, so every theorem holds for any such
function.

## Model

| member | source | states |
|---|---|---|
| Signals.NormalizeTReturn | src/index.ts:53-58 | Normal exactly for the falsy values (undefined, null, false, 0, NaN, ""), Skip exactly for -1, Break for every other truthy value |
| Signals.ToJs | src/index.ts:43 | the enum's run-time numbers: normalizing gives the member back, `isTBreak` holds exactly for Break, and only Skip is -1 |
| Signals.IsTBreak | src/index.ts:51 | `isTBreak` uses strict equality, so an aborting value is never -1, 0 or `true` (only the number 1, null and false abort) |
| Signals.ClassificationsDisagree | src/index.ts:51-58 | the abort test and the normalization disagree exactly on null and false (which abort but normalize to Normal) and on truthy values other than 1 and -1 (which normalize to Break but do not abort) |
| Paths.Split | src/index.ts:65-66 | `split('/')` yields at least one segment, keeps empty ones, no segment contains the separator, and joining the segments gives the string back |
| Paths.SplitJoin | src/index.ts:65-66 | splitting inverts joining for separator-free segments, so two paths have equal segment lists exactly when they are equal |
| Paths.IndexOf | src/index.ts:170 | `indexOf` is -1 exactly when the needle occurs nowhere; otherwise it is the first position where it occurs. It is 0 exactly when the needle is a prefix |
| Paths.MatchPath | src/index.ts:64-78 | Break exactly when the paths are equal; Normal exactly when one segment list strictly extends the other; otherwise (a differing segment) Skip |
| Paths.MatchPathLoop | src/index.ts:64-78 | the early-return loop over the shorter length computes the same signal as the segment-list characterisation |
| Paths.MatchPathSymmetric | src/index.ts:64-78 | swapping the two paths never changes the result |
| Traverse.Traverse | src/index.ts:86-119 | the calls `traverse` makes are the break-free walk from "/" cut right after the first call whose raw result aborts; no earlier call aborts; a single root is walked as a one-element list |
| Traverse.WalkList | src/index.ts:92-112 | the inner `reduce` over a sibling list makes no call exactly when the list is empty, and reports a break exactly when its last call aborted |
| Traverse.WalkNode | src/index.ts:93-111 | one `reduce` step starts by entering its route with the resolved path, and reports a break exactly when its last call aborted |
| Traverse.WalkListTruncates | src/index.ts:92-112 | the inner `reduce` over a sibling list makes the calls of the break-free walk up to and including the first abort, and reports a break exactly when that walk contains one |
| Traverse.WalkNodeTruncates | src/index.ts:97-111 | one route: enter, children unless pruned, leave; the `leave` of every route still open is skipped once a descendant aborts |
| Traverse.BracketTruncates | src/index.ts:101-108 | after an `enter` that does not abort, the calls are the truncated children's calls followed by `leave` only when no child aborted; the route reports a break exactly when the children or `leave` abort |
| Traverse.PrunedLeavesAtOnceList | src/index.ts:92-112 | in the break-free walk of a sibling list, a route that is childless or whose `enter` returned -1 gets its `leave` call immediately after its `enter` call; the `enter` calls are exactly the pruned pre-order listing, so the children of a route whose `enter` returned -1 are never entered and its later siblings are |
| Traverse.PrunedLeavesAtOnceNode | src/index.ts:97-111 | the same for the break-free walk of one route: pruned descendants are left at once, their children are never entered, and their later siblings are |
| Traverse.PrunedRouteThenSiblings | src/index.ts:101-108 | a route whose `enter` neither aborts nor lets the walk descend gets exactly `enter` then `leave`; the `reduce` then walks the remaining siblings unless that `leave` aborts |
| Traverse.TraverseEntersPruned | src/index.ts:86-119 | the routes `traverse` enters are, in order, a prefix of the pruned pre-order listing, and all of it when no call aborts |
| Traverse.EventsArePreOrderList | src/index.ts:92-112 | every `enter` and `leave` call receives one of the (parent, node, path) references of the forest's pre-order listing |
| Traverse.UnprunedEntersList | src/index.ts:92-112 | when `enter` never returns -1, the `enter` calls are exactly the pre-order listing, in order |
| Traverse.PreOrderNodesList | src/index.ts:92-112 | the nodes of the pre-order listing are the forest's nodes in pre-order, one entry per node, so the listing has as many entries as the forest has nodes |
| Traverse.PreOrderParentsNode | src/index.ts:97-104 | a route is visited first, with path `resolveUrl(root, route.path)`; every deeper reference carries its real parent |
| Traverse.TopLevelParentIsFirstRoute | src/index.ts:97 | because `parent = parent \|\| route` persists across the reduce, the top-level listing is the concatenation, route by route, of each top-level route's subtree walked with the first route as parent; every nested node gets its real parent |
| Traverse.DefaultVisitorVisitsAll | src/index.ts:87-90 | with the default callbacks the walk enters every node in pre-order and makes two calls per node |
| Traverse.FullWalkLength | src/index.ts:99-108 | without pruning, the break-free walk makes exactly two calls per node |
| Bfs.RunQueue | src/index.ts:137-153 | the loop calls the matcher first on the queue's head, at most once per node the queue reaches, and collects at most one node per call |
| Bfs.BfsTraversal | src/index.ts:122-157 | an empty list collects nothing; otherwise the result is the unskipped nodes of level order, cut at the first context whose answer aborts |
| Bfs.Drain | src/index.ts:137-153 | the `while` loop over the queue collects exactly the nodes of the loop's functional run from the same queue |
| Bfs.RunQueueStep | src/index.ts:138-152 | one turn adds the dequeued node unless its answer is -1, and continues with the rest of the queue plus the pushed children only when the answer does not abort |
| Bfs.RunCollectsLevelOrder | src/index.ts:137-153 | the nodes collected from the root queue are the unskipped nodes of level order, cut after the first aborting context |
| Bfs.RunTruncates | src/index.ts:137-153 | the loop dequeues the contexts of the break-free FIFO walk up to and including the first aborting one |
| Bfs.RunKeeps | src/index.ts:141-144 | the collected nodes are exactly those of the dequeued contexts whose answer is not -1, in order |
| Bfs.DequeueShrinks | src/index.ts:137-152 | dequeuing a context and pushing its children leaves strictly fewer nodes to visit, so the loop ends on an acyclic tree |
| Bfs.AllVisitsSplit | src/index.ts:137-152 | FIFO: a queue that starts with a block visits that whole block first, then the rest, then what the block pushed |
| Bfs.AllVisitsIsLevelOrder | src/index.ts:137-152 | the break-free walk visits level by level |
| Bfs.ExpandFromUnskipped | src/index.ts:146-151 | every context of the next level is a child of an unskipped context of this level, with that node as parent and the path resolved against its path; skipped nodes' children are never enqueued |
| Bfs.RootCtxsFrom | src/index.ts:128-135 | the initial queue holds one context per root, in order; each root is passed as its own parent, with its path resolved against "/" |
| Bfs.KidCtxsFrom | src/index.ts:149-151 | the contexts pushed for a node carry it as parent, one of its children as node, and the child path resolved against its path |
| Bfs.AbortingNodeCollected | src/index.ts:141-147 | a node whose answer aborts the walk is still collected, as the last node |
| Locate.Normalized | src/index.ts:164-175 | for a target path: Skip exactly when the path is not a prefix of the target, Break exactly when it equals the target; with a non-empty prefix, a visitor's answer becomes Skip whenever `matchPath(prefix, path)` is Skip; otherwise it is the visitor's own answer, normalized |
| Locate.FindNodeRef | src/index.ts:184-210 | a single node instead of a list is a TypeError, and only then; a returned context is one at which the predicate signals Break |
| Locate.DfsFindsFirst | src/index.ts:198-209 | depth first, the result is the first context in `enter` order at which the predicate breaks, and undefined when there is none |
| Locate.BfsFindsFirst | src/index.ts:190-197 | breadth first, the result is the first context in level order at which the predicate breaks, and undefined when there is none |
| Locate.TargetFoundAtExactPath | src/index.ts:170-175 | a target path is found only at a context whose resolved path is exactly the target |
| Locate.PrefixScopesSearch | src/index.ts:166-167 | with a prefix, no context whose path's segments differ from the prefix's is ever returned |
| Locate.NotFoundMeansNoHit | src/index.ts:188-209 | undefined means that no context the walk explores makes the predicate break |
| Query.Pairs | src/index.ts:21-26 | one encoded pair per present value, so there are none exactly when every value is null or undefined |
| Query.Param | src/index.ts:19-27 | the result is `&` before each `key=value` pair of a present value, joined in key order; it is empty exactly when no value is present; a non-empty result starts with `&` |
| Query.FoldLeadsEachPair | src/index.ts:21-26 | the left-to-right `reduce` from any accumulator appends `&` plus each present pair, so it agrees with the joined form |
| Query.ParamSplitsIntoPairs | src/index.ts:19-27 | with an encoder that never emits `&`, splitting the output at `&` after its first character recovers exactly the emitted pairs |
| Query.QueryToken | src/index.ts:246 | the token is `?` exactly when the path has no `?`, and `&` otherwise |
| Query.AppendQuery | src/index.ts:245-248 | an empty query leaves the path alone; otherwise the path gains the token followed by `param`'s output |
| Query.AppendQueryOpensWithEmptyPair | src/index.ts:245-248 | for a path without `?` and a present value, the result reads `?&`, so the query string's first `&`-separated piece is empty |
| Query.FooQueryAsWritten | src/index.ts:245-248 | with an identity encoder, `/foo` and `{q: 'x'}` give `/foo?&q=x` |
| Query.AppendQueryIntended | src/index.ts:245-248 | the corrected step adds nothing when no value is present; otherwise it differs from the step as written only by the extra `&` after the token |
| Query.AppendQueryIntendedRoundTrip | src/index.ts:245-248 | the corrected step keeps the path, adds one token, and then exactly the emitted pairs, each recoverable by splitting at `&` |
| Query.ResolveRoutePath | src/index.ts:227-251 | the result starts with the resolved and filled path; it equals that path exactly when there is no query; otherwise the next character is `?` exactly when the path has none |
| Query.ResolveRoutePathIntended | src/index.ts:227-251 | with the corrected query step, the path is returned unchanged exactly when no query value is present |

## Left out

- `resolveUrl`, `encodeURIComponent`, `String(v)`, `isArray` and `fillParams` are not modelled. The first four belong to other libraries, and src/params.ts is not part of this model. The first three and `fillParams` are function parameters. `isArray` becomes the `One`/`Many` distinction of the route argument.
- `isEmpty` is modelled as "has no keys". An absent `params` or `query` object and an empty one are both the empty list.
- `Object.keys` order is taken as the order of the key/value list. Duplicate keys are not excluded.
- JavaScript values are reduced to the distinctions the classifications make. Negative zero, BigInt zero and `document.all` are not modelled. Numbers are reals. NaN is its own case.
- A missing `children` field and an empty array behave identically in every branch of both walkers, so a node has a (possibly empty) list of children.
- Cyclic or shared route graphs are not modelled. The datatype makes every tree finite and acyclic, and that is what makes the walks terminate.
- The `if (!item) break` line of `bfsTraversal` cannot fire on a queue of contexts, so it has no counterpart.
- `traverse` returns nothing. The model's result is the sequence of callback calls it makes, because those calls are all a caller can observe.
- Visitors are pure functions of their arguments. A visitor with side effects (as in `findNodeRef`'s closure) is modelled through what it returns. The stored context is modelled as a last-write-wins scan over the calls.
- Agreement between the depth-first and breadth-first searches of `findNodeRef` is not claimed. Both are characterised separately, and in general they return different first hits.
- `MatcherOptions` defaults (an absent options object) are the record with no prefix and `bfs` false.
- `matchPath` keeps empty segments (`'/a'.split('/')` is `['', 'a']`); the model follows the code.
- JavaScript strings (sequences of UTF-16 code units) are modelled as sequences of Unicode characters. This is harmless here: the library only compares strings for equality, tests prefixes, splits at an ASCII separator and compares `indexOf` against 0 and -1.

## Findings

| source | as written | input that shows it | evidently intended | confidence | as-written member | corrected member |
|---|---|---|---|---|---|---|
| src/index.ts:245-248 | `param` puts `&` before every pair, including the first, and `resolveRoutePath` then prepends `?` or `&`. The query therefore opens with an empty pair. A query whose values are all null still appends a bare `?` | `resolveRoutePath('/foo', {query: {q: 'x'}})` with the identity resolver gives `/foo?&q=x` | `/foo?q=x`: the token, then the pairs joined by `&` | medium, not executed | Query.AppendQueryOpensWithEmptyPair | Query.AppendQueryIntended |
