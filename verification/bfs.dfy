/** `bfsTraversal` (src/index.ts:121-157): a FIFO walk that calls one matcher
    per dequeued context and collects the nodes it did not skip. */
module Bfs {
  import opened Seqs
  import opened Signals
  import opened Tree

  /** The queue seeded from the roots: `createCtx('/', node, node)`, so each
      root is passed as its own parent. */
  function RootCtxs(join: Joiner, roots: seq<Node>): seq<NodeRef>
    decreases roots
  {
    if roots == [] then []
    else [NodeRef(roots[0], roots[0], join("/", roots[0].path))] + RootCtxs(join, roots[1..])
  }

  /** `createCtx(path, children[i], node)` for each child in order. */
  function KidCtxs(join: Joiner, parent: Node, kids: seq<Node>, root: string): seq<NodeRef>
    decreases kids
  {
    if kids == [] then []
    else [NodeRef(parent, kids[0], join(root, kids[0].path))] + KidCtxs(join, parent, kids[1..], root)
  }

  /** The raw value the matcher returns for a context. */
  function Answer(m: Callback, item: NodeRef): JsValue {
    m(item.parent, item.node, item.path)
  }

  /** The contexts whose matcher answer ends the walk. */
  function Stops(m: Callback): NodeRef -> bool {
    (item: NodeRef) => IsTBreak(Answer(m, item))
  }

  /** `r === TReturn.Skip`, on the raw answer. */
  predicate Skipped(m: Callback, item: NodeRef) {
    Answer(m, item) == ToJs(Skip)
  }

  /** What dequeuing `item` pushes, when the walk goes on: its children's
      contexts unless the matcher skipped it. */
  function Pushed(join: Joiner, m: Callback, item: NodeRef): seq<NodeRef> {
    if Skipped(m, item) then [] else KidCtxs(join, item.node, item.node.children, item.path)
  }

  /** Nodes still to be visited through the queue's contexts. */
  function QueueSize(q: seq<NodeRef>): nat {
    if q == [] then 0 else Size(q[0].node) + QueueSize(q[1..])
  }

  lemma {:induction false} QueueSizeAppend(a: seq<NodeRef>, b: seq<NodeRef>)
    ensures QueueSize(a + b) == QueueSize(a) + QueueSize(b)
  {
    if a == [] {
      assert a + b == b;
    } else {
      assert (a + b)[0] == a[0] && (a + b)[1..] == a[1..] + b;
      QueueSizeAppend(a[1..], b);
    }
  }

  lemma {:induction false} KidCtxsSize(join: Joiner, parent: Node, kids: seq<Node>, root: string)
    ensures QueueSize(KidCtxs(join, parent, kids, root)) == SizeOfAll(kids)
  {
    if kids != [] {
      KidCtxsSize(join, parent, kids[1..], root);
    }
  }

  /** Dequeuing one context and pushing its children shrinks the work left. */
  lemma DequeueShrinks(join: Joiner, m: Callback, q: seq<NodeRef>)
    requires q != []
    ensures QueueSize(q[1..] + Pushed(join, m, q[0])) < QueueSize(q)
  {
    QueueSizeAppend(q[1..], Pushed(join, m, q[0]));
    KidCtxsSize(join, q[0].node, q[0].node.children, q[0].path);
  }

  /** The outcome of the loop: the contexts it passed to the matcher, and the
      collected nodes. */
  datatype Run = Run(visits: seq<NodeRef>, nodes: seq<Node>)

  /** The loop of `bfsTraversal` from a given queue. It calls the matcher
      first on the queue's head, at most once per node the queue reaches, and
      collects at most one node per call. */
  function RunQueue(join: Joiner, m: Callback, queue: seq<NodeRef>): (r: Run)
    ensures queue != [] ==> r.visits != [] && r.visits[0] == queue[0]
    ensures |r.nodes| <= |r.visits| <= QueueSize(queue)
    decreases QueueSize(queue)
  {
    if queue == [] then Run([], [])
    else
      var item := queue[0];
      var kept := if Skipped(m, item) then [] else [item.node];
      if IsTBreak(Answer(m, item)) then Run([item], kept)
      else
        DequeueShrinks(join, m, queue);
        var rest := RunQueue(join, m, queue[1..] + Pushed(join, m, item));
        Run([item] + rest.visits, kept + rest.nodes)
  }

  /** One turn of the loop, seen from the nodes collected so far (`acc`): the
      dequeued context's node is added unless skipped, and the rest of the
      queue contributes only when the context does not abort. */
  lemma RunQueueStep(join: Joiner, m: Callback, q: seq<NodeRef>, acc: seq<Node>)
    requires q != []
    ensures var acc' := if Skipped(m, q[0]) then acc else acc + [q[0].node];
            && (IsTBreak(Answer(m, q[0])) ==> acc' == acc + RunQueue(join, m, q).nodes)
            && (!IsTBreak(Answer(m, q[0])) ==>
                  acc' + RunQueue(join, m, q[1..] + Pushed(join, m, q[0])).nodes == acc + RunQueue(join, m, q).nodes)
  {
    var kept := if Skipped(m, q[0]) then [] else [q[0].node];
    assert acc + [] == acc;
    if IsTBreak(Answer(m, q[0])) {
      assert RunQueue(join, m, q).nodes == kept;
    } else {
      var later := RunQueue(join, m, q[1..] + Pushed(join, m, q[0])).nodes;
      assert RunQueue(join, m, q).nodes == kept + later;
      AppendAssoc(acc, kept, later);
    }
  }

  /** The nodes the loop collects from the root queue are the unskipped nodes
      of level order, cut after the first aborting context. */
  lemma RunCollectsLevelOrder(join: Joiner, m: Callback, init: seq<NodeRef>)
    ensures RunQueue(join, m, init).nodes == Kept(m, TakeThrough(LevelOrder(join, m, init), Stops(m)))
  {
    RunKeeps(join, m, init);
    RunTruncates(join, m, init);
    AllVisitsIsLevelOrder(join, m, init);
  }

  /** `bfsTraversal(node, matcher)` as the source writes it. It returns the
      unskipped nodes of the level-order walk, cut after the first context whose
      answer aborts (that context's node included). */
  method BfsTraversal(join: Joiner, roots: Roots, matcher: Callback) returns (nodes: seq<Node>)
    ensures AsList(roots) == [] ==> nodes == []
    ensures nodes == Kept(matcher, TakeThrough(LevelOrder(join, matcher, RootCtxs(join, AsList(roots))), Stops(matcher)))
  {
    var list := AsList(roots);
    RunCollectsLevelOrder(join, matcher, RootCtxs(join, list));
    nodes := [];
    if |list| > 0 {
      nodes := Drain(join, matcher, RootCtxs(join, list));
    }
  }

  /** The `while (queue.length)` loop: dequeue a context, call the matcher,
      collect the node unless skipped, stop on an abort, otherwise enqueue the
      children of an unskipped node. */
  method Drain(join: Joiner, matcher: Callback, start: seq<NodeRef>) returns (nodes: seq<Node>)
    ensures nodes == RunQueue(join, matcher, start).nodes
  {
    ghost var all := RunQueue(join, matcher, start).nodes;
    nodes := [];
    var queue := start;
    while |queue| > 0
      invariant nodes + RunQueue(join, matcher, queue).nodes == all
      decreases QueueSize(queue)
    {
      var item := queue[0];
      DequeueShrinks(join, matcher, queue);
      RunQueueStep(join, matcher, queue, nodes);
      var r := matcher(item.parent, item.node, item.path);
      assert r == Answer(matcher, item);
      var next := queue[1..];
      if r != ToJs(Skip) {
        nodes := nodes + [item.node];
      }
      if IsTBreak(r) {
        assert nodes == all;
        break;
      } else if r != ToJs(Skip) {
        next := next + KidCtxs(join, item.node, item.node.children, item.path);
      }
      assert next == queue[1..] + Pushed(join, matcher, item);
      queue := next;
    }
    assert nodes == all;
  }

  // ---------------------------------------------------------------------------
  // Reference definitions: the walk with aborts ignored, and level order.

  /** The nodes of the contexts the matcher did not skip, in order. */
  function Kept(m: Callback, visits: seq<NodeRef>): seq<Node> {
    if visits == [] then []
    else (if Skipped(m, visits[0]) then [] else [visits[0].node]) + Kept(m, visits[1..])
  }

  /** The contexts the loop would dequeue if no answer aborted. */
  function AllVisits(join: Joiner, m: Callback, queue: seq<NodeRef>): seq<NodeRef>
    decreases QueueSize(queue)
  {
    if queue == [] then []
    else
      DequeueShrinks(join, m, queue);
      [queue[0]] + AllVisits(join, m, queue[1..] + Pushed(join, m, queue[0]))
  }

  /** The next level: everything the contexts of one level push, in order. */
  function Expand(join: Joiner, m: Callback, level: seq<NodeRef>): seq<NodeRef> {
    if level == [] then [] else Pushed(join, m, level[0]) + Expand(join, m, level[1..])
  }

  lemma {:induction false} ExpandShrinks(join: Joiner, m: Callback, level: seq<NodeRef>)
    ensures QueueSize(Expand(join, m, level)) + |level| <= QueueSize(level)
  {
    if level != [] {
      ExpandShrinks(join, m, level[1..]);
      QueueSizeAppend(Pushed(join, m, level[0]), Expand(join, m, level[1..]));
      KidCtxsSize(join, level[0].node, level[0].node.children, level[0].path);
    }
  }

  /** Level order: a whole level, then the level it pushes. */
  function LevelOrder(join: Joiner, m: Callback, level: seq<NodeRef>): seq<NodeRef>
    decreases QueueSize(level)
  {
    if level == [] then []
    else
      ExpandShrinks(join, m, level);
      level + LevelOrder(join, m, Expand(join, m, level))
  }

  // ---------------------------------------------------------------------------
  // The loop against the references.

  /** The loop is the break-free walk cut after its first aborting context. */
  lemma {:induction false} RunTruncates(join: Joiner, m: Callback, queue: seq<NodeRef>)
    ensures RunQueue(join, m, queue).visits == TakeThrough(AllVisits(join, m, queue), Stops(m))
    decreases QueueSize(queue)
  {
    if queue != [] {
      var all := AllVisits(join, m, queue);
      assert all[0] == queue[0];
      if !IsTBreak(Answer(m, queue[0])) {
        DequeueShrinks(join, m, queue);
        RunTruncates(join, m, queue[1..] + Pushed(join, m, queue[0]));
        assert all[1..] == AllVisits(join, m, queue[1..] + Pushed(join, m, queue[0]));
      } else {
        assert Stops(m)(all[0]);
      }
    }
  }

  /** The collected nodes are those of the unskipped visits. */
  lemma {:induction false} RunKeeps(join: Joiner, m: Callback, queue: seq<NodeRef>)
    ensures RunQueue(join, m, queue).nodes == Kept(m, RunQueue(join, m, queue).visits)
    decreases QueueSize(queue)
  {
    if queue != [] {
      var run := RunQueue(join, m, queue);
      assert run.visits[0] == queue[0];
      if !IsTBreak(Answer(m, queue[0])) {
        DequeueShrinks(join, m, queue);
        var rest := RunQueue(join, m, queue[1..] + Pushed(join, m, queue[0]));
        RunKeeps(join, m, queue[1..] + Pushed(join, m, queue[0]));
        assert run.visits[1..] == rest.visits;
      } else {
        assert run.visits[1..] == [];
      }
    }
  }

  /** FIFO: a queue that starts with `a` visits all of `a` first, then what
      follows it, with `a`'s children queued behind. */
  lemma AllVisitsStep(join: Joiner, m: Callback, q: seq<NodeRef>)
    requires q != []
    ensures AllVisits(join, m, q) == [q[0]] + AllVisits(join, m, q[1..] + Pushed(join, m, q[0]))
  {
  }

  /** One step of the FIFO argument, given the claim for the rest of `a`. */
  lemma AllVisitsSplitStep(join: Joiner, m: Callback, a: seq<NodeRef>, b: seq<NodeRef>)
    requires a != []
    requires var b' := b + Pushed(join, m, a[0]);
             AllVisits(join, m, a[1..] + b') == a[1..] + AllVisits(join, m, b' + Expand(join, m, a[1..]))
    ensures AllVisits(join, m, a + b) == a + AllVisits(join, m, b + Expand(join, m, a))
  {
    var pushed := Pushed(join, m, a[0]);
    var rest := Expand(join, m, a[1..]);
    var tail := b + (pushed + rest);
    AllVisitsStep(join, m, a + b);
    DropHeadAppend(a, b, pushed);
    assert Expand(join, m, a) == pushed + rest;
    AppendAssoc(b, pushed, rest);
    DropHeadAppend(a, [], AllVisits(join, m, tail));
  }

  lemma {:induction false} AllVisitsSplit(join: Joiner, m: Callback, a: seq<NodeRef>, b: seq<NodeRef>)
    ensures AllVisits(join, m, a + b) == a + AllVisits(join, m, b + Expand(join, m, a))
    decreases |a|
  {
    if a == [] {
      assert a + b == b;
      assert b + Expand(join, m, a) == b;
    } else {
      AllVisitsSplit(join, m, a[1..], b + Pushed(join, m, a[0]));
      AllVisitsSplitStep(join, m, a, b);
    }
  }

  /** The break-free FIFO walk is level order. */
  lemma {:induction false} AllVisitsIsLevelOrder(join: Joiner, m: Callback, level: seq<NodeRef>)
    ensures AllVisits(join, m, level) == LevelOrder(join, m, level)
    decreases QueueSize(level)
  {
    if level != [] {
      AllVisitsSplit(join, m, level, []);
      assert level + [] == level;
      assert [] + Expand(join, m, level) == Expand(join, m, level);
      ExpandShrinks(join, m, level);
      AllVisitsIsLevelOrder(join, m, Expand(join, m, level));
    }
  }

  /** Every context of the next level is a child of an unskipped context of the
      current one, resolved against that context's path: skipped nodes' children
      are never queued. */
  lemma {:induction false} ExpandFromUnskipped(join: Joiner, m: Callback, level: seq<NodeRef>)
    ensures forall x :: x in Expand(join, m, level) ==>
              exists y :: y in level && !Skipped(m, y) && x.parent == y.node &&
                          x.node in y.node.children && x.path == join(y.path, x.node.path)
  {
    if level != [] {
      var y := level[0];
      ExpandFromUnskipped(join, m, level[1..]);
      KidCtxsFrom(join, y.node, y.node.children, y.path);
      forall x | x in Expand(join, m, level)
        ensures exists y :: y in level && !Skipped(m, y) && x.parent == y.node &&
                            x.node in y.node.children && x.path == join(y.path, x.node.path)
      {
        if x in Pushed(join, m, y) {
          assert y in level;
        } else {
          assert x in Expand(join, m, level[1..]);
          var z :| z in level[1..] && !Skipped(m, z) && x.parent == z.node &&
                   x.node in z.node.children && x.path == join(z.path, x.node.path);
          assert z in level;
        }
      }
    }
  }

  lemma {:induction false} KidCtxsFrom(join: Joiner, parent: Node, kids: seq<Node>, root: string)
    ensures forall x :: x in KidCtxs(join, parent, kids, root) ==>
              x.parent == parent && x.node in kids && x.path == join(root, x.node.path)
  {
    if kids != [] {
      KidCtxsFrom(join, parent, kids[1..], root);
    }
  }

  /** The first level: one context per root, in order, each root passed as
      its own parent and resolved against "/". */
  lemma {:induction false} RootCtxsFrom(join: Joiner, roots: seq<Node>)
    ensures |RootCtxs(join, roots)| == |roots|
    ensures forall i :: 0 <= i < |roots| ==>
              RootCtxs(join, roots)[i] == NodeRef(roots[i], roots[i], join("/", roots[i].path))
    decreases roots
  {
    if roots != [] {
      RootCtxsFrom(join, roots[1..]);
      forall i | 1 <= i < |roots|
        ensures RootCtxs(join, roots)[i] == NodeRef(roots[i], roots[i], join("/", roots[i].path))
      {
        assert RootCtxs(join, roots)[i] == RootCtxs(join, roots[1..])[i - 1];
        assert roots[i] == roots[1..][i - 1];
      }
    }
  }

  /** When the walk ends on an abort, the aborting node is the last one
      collected. */
  lemma {:induction false} AbortingNodeCollected(m: Callback, visits: seq<NodeRef>)
    requires visits != [] && Stops(m)(visits[|visits| - 1])
    ensures Kept(m, visits) != [] && Kept(m, visits)[|Kept(m, visits)| - 1] == visits[|visits| - 1].node
  {
    if |visits| > 1 {
      AbortingNodeCollected(m, visits[1..]);
    } else {
      assert Answer(m, visits[0]) != ToJs(Skip);
    }
  }
}
