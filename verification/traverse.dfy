/** `traverse` (src/index.ts:80-119): a depth-first walk with `enter` and `leave`
    callbacks. A walk is modelled by the trace of callback calls it makes, so
    "no call after an abort" is a statement about that trace. */
module Traverse {
  import opened Seqs
  import opened Signals
  import opened Tree

  /** `ITraverseOption` with its defaults filled in. */
  datatype Visitor = Visitor(enter: Callback, leave: Callback)

  /** `defaultVisitor`, used for a missing `enter` or `leave`. */
  function NoOp(): Callback {
    (parent: Node, node: Node, path: string) => ToJs(Normal)
  }

  /** One callback call, with the arguments it received. */
  datatype Event = Enter(ref: NodeRef) | Leave(ref: NodeRef)

  /** What the inner `reduce` produces: the calls it made, and whether its
      accumulator ended on an abort value. */
  datatype Walk = Walk(trace: seq<Event>, broke: bool)

  /** The raw value the callback of event `e` returned. */
  function Response(v: Visitor, e: Event): JsValue {
    match e
    case Enter(r) => v.enter(r.parent, r.node, r.path)
    case Leave(r) => v.leave(r.parent, r.node, r.path)
  }

  /** The events whose callback aborts the walk. */
  function Aborts(v: Visitor): Event -> bool {
    (e: Event) => IsTBreak(Response(v, e))
  }

  /** The parent a sibling list passes: `parent = parent || route` keeps the
      first value, so a top-level list (no parent) uses its first route. */
  function ListParent(parent: Option<Node>, first: Node): Node {
    if parent.Some? then parent.value else first
  }

  /** The descent test `children && children.length && r !== TReturn.Skip`, on
      the raw value `enter` returned. */
  predicate Descends(v: Visitor, ref: NodeRef) {
    |ref.node.children| > 0 && v.enter(ref.parent, ref.node, ref.path) != ToJs(Skip)
  }

  /** The inner `reduce` over a sibling list. It makes no call exactly when the
      list is empty, and reports a break exactly when its last call aborted. */
  function WalkList(join: Joiner, v: Visitor, parent: Option<Node>, routes: seq<Node>, root: string): (w: Walk)
    ensures w.trace == [] <==> routes == []
    ensures w.broke <==> w.trace != [] && Aborts(v)(w.trace[|w.trace| - 1])
    decreases routes
  {
    if routes == [] then Walk([], false)
    else
      var p := ListParent(parent, routes[0]);
      var first := WalkNode(join, v, p, routes[0], root);
      if first.broke then first
      else
        var rest := WalkList(join, v, Some(p), routes[1..], root);
        var t := first.trace + rest.trace;
        assert rest.trace == [] ==> t == first.trace;
        assert rest.trace != [] ==> t[|t| - 1] == rest.trace[|rest.trace| - 1];
        Walk(t, rest.broke)
  }

  /** One step of that `reduce`: enter the route, walk its children unless
      pruned, then leave it; an abort from the children skips the `leave`. The
      first call enters the route; the step reports a break exactly when its
      last call aborted. */
  function WalkNode(join: Joiner, v: Visitor, parent: Node, route: Node, root: string): (w: Walk)
    ensures w.trace != [] && w.trace[0] == Enter(NodeRef(parent, route, join(root, route.path)))
    ensures w.broke <==> Aborts(v)(w.trace[|w.trace| - 1])
    decreases route
  {
    var ref := NodeRef(parent, route, join(root, route.path));
    if IsTBreak(v.enter(parent, route, ref.path)) then Walk([Enter(ref)], true)
    else
      var sub := if Descends(v, ref) then WalkList(join, v, Some(route), route.children, ref.path)
                 else Walk([], false);
      Bracket(v, ref, sub)
  }

  /** The calls `traverse(route, visitor)` makes: the walk starts at "/" with no
      parent; it is the break-free walk cut off after its first aborting call. */
  function Traverse(join: Joiner, roots: Roots, v: Visitor): (trace: seq<Event>)
    ensures trace == TakeThrough(FullList(join, v, None, AsList(roots), "/"), Aborts(v))
    ensures forall i :: 0 <= i < |trace| - 1 ==> !IsTBreak(Response(v, trace[i]))
  {
    WalkListTruncates(join, v, None, AsList(roots), "/");
    WalkList(join, v, None, AsList(roots), "/").trace
  }

  // ---------------------------------------------------------------------------
  // Reference definitions: the walk with aborts ignored, and the plain pre-order
  // listing of (parent, node, path) with neither aborts nor pruning.

  /** The calls a sibling list would see if no callback ever aborted. */
  function FullList(join: Joiner, v: Visitor, parent: Option<Node>, routes: seq<Node>, root: string): seq<Event>
    decreases routes
  {
    if routes == [] then []
    else
      var p := ListParent(parent, routes[0]);
      FullNode(join, v, p, routes[0], root) + FullList(join, v, Some(p), routes[1..], root)
  }

  /** The calls one route would see if no callback ever aborted. */
  function FullNode(join: Joiner, v: Visitor, parent: Node, route: Node, root: string): seq<Event>
    decreases route
  {
    var ref := NodeRef(parent, route, join(root, route.path));
    [Enter(ref)]
      + (if Descends(v, ref) then FullList(join, v, Some(route), route.children, ref.path) else [])
      + [Leave(ref)]
  }

  /** Every (parent, node, path) of a sibling list's subtrees, in pre-order. */
  function PreOrderList(join: Joiner, parent: Option<Node>, routes: seq<Node>, root: string): seq<NodeRef>
    decreases routes
  {
    if routes == [] then []
    else
      var p := ListParent(parent, routes[0]);
      PreOrderNode(join, p, routes[0], root) + PreOrderList(join, Some(p), routes[1..], root)
  }

  /** A route, then its children's subtrees with the route as their parent and
      the route's resolved path as their root. */
  function PreOrderNode(join: Joiner, parent: Node, route: Node, root: string): seq<NodeRef>
    decreases route
  {
    var path := join(root, route.path);
    [NodeRef(parent, route, path)] + PreOrderList(join, Some(route), route.children, path)
  }

  /** The pre-order listing with pruning: every route of the forest, except
      that nothing below a route whose `enter` returned -1 is listed. */
  function PrunedList(join: Joiner, v: Visitor, parent: Option<Node>, routes: seq<Node>, root: string): seq<NodeRef>
    decreases routes
  {
    if routes == [] then []
    else
      var p := ListParent(parent, routes[0]);
      PrunedNode(join, v, p, routes[0], root) + PrunedList(join, v, Some(p), routes[1..], root)
  }

  /** A route, then (unless its `enter` returned -1) its children's pruned
      subtrees. */
  function PrunedNode(join: Joiner, v: Visitor, parent: Node, route: Node, root: string): seq<NodeRef>
    decreases route
  {
    var path := join(root, route.path);
    [NodeRef(parent, route, path)]
      + (if v.enter(parent, route, path) == ToJs(Skip) then [] else PrunedList(join, v, Some(route), route.children, path))
  }

  /** The references of the `enter` calls of a trace, in order. */
  function Enters(t: seq<Event>): seq<NodeRef> {
    if t == [] then []
    else (if t[0].Enter? then [t[0].ref] else []) + Enters(t[1..])
  }

  lemma {:induction false} EntersAppend(a: seq<Event>, b: seq<Event>)
    ensures Enters(a + b) == Enters(a) + Enters(b)
  {
    if a == [] {
      assert a + b == b;
    } else {
      var head := if a[0].Enter? then [a[0].ref] else [];
      assert (a + b)[0] == a[0];
      assert (a + b)[1..] == a[1..] + b;
      EntersAppend(a[1..], b);
      assert Enters(a + b) == head + Enters(a[1..] + b);
      assert Enters(a) == head + Enters(a[1..]);
    }
  }

  // ---------------------------------------------------------------------------
  // Abort: the walk is the break-free walk cut after its first aborting call.

  lemma {:induction false} WalkListTruncates(join: Joiner, v: Visitor, parent: Option<Node>, routes: seq<Node>, root: string)
    ensures WalkList(join, v, parent, routes, root).trace
         == TakeThrough(FullList(join, v, parent, routes, root), Aborts(v))
    ensures WalkList(join, v, parent, routes, root).broke
         == Exists(FullList(join, v, parent, routes, root), Aborts(v))
    decreases routes
  {
    if routes != [] {
      var p := ListParent(parent, routes[0]);
      var a := FullNode(join, v, p, routes[0], root);
      var b := FullList(join, v, Some(p), routes[1..], root);
      WalkNodeTruncates(join, v, p, routes[0], root);
      WalkListTruncates(join, v, Some(p), routes[1..], root);
      TakeThroughAppend(a, b, Aborts(v));
      ExistsAppend(a, b, Aborts(v));
    }
  }

  lemma {:induction false} WalkNodeTruncates(join: Joiner, v: Visitor, parent: Node, route: Node, root: string)
    ensures WalkNode(join, v, parent, route, root).trace
         == TakeThrough(FullNode(join, v, parent, route, root), Aborts(v))
    ensures WalkNode(join, v, parent, route, root).broke
         == Exists(FullNode(join, v, parent, route, root), Aborts(v))
    decreases route
  {
    var path := join(root, route.path);
    if IsTBreak(v.enter(parent, route, path)) {
      EnterAbortTruncates(join, v, parent, route, root);
    } else {
      if Descends(v, NodeRef(parent, route, path)) {
        WalkListTruncates(join, v, Some(route), route.children, path);
      }
      PassTruncates(join, v, parent, route, root);
    }
  }

  /** A route whose `enter` aborts makes that one call. */
  lemma EnterAbortTruncates(join: Joiner, v: Visitor, parent: Node, route: Node, root: string)
    requires IsTBreak(v.enter(parent, route, join(root, route.path)))
    ensures WalkNode(join, v, parent, route, root).trace
         == TakeThrough(FullNode(join, v, parent, route, root), Aborts(v))
    ensures WalkNode(join, v, parent, route, root).broke
         == Exists(FullNode(join, v, parent, route, root), Aborts(v))
  {
    var ref := NodeRef(parent, route, join(root, route.path));
    var full := FullNode(join, v, parent, route, root);
    assert WalkNode(join, v, parent, route, root) == Walk([Enter(ref)], true);
    assert full[0] == Enter(ref) && Aborts(v)(full[0]);
  }

  /** A route whose `enter` does not abort, given that its children's walk is
      their break-free walk truncated. */
  lemma PassTruncates(join: Joiner, v: Visitor, parent: Node, route: Node, root: string)
    requires !IsTBreak(v.enter(parent, route, join(root, route.path)))
    requires var path := join(root, route.path);
             Descends(v, NodeRef(parent, route, path)) ==>
               && WalkList(join, v, Some(route), route.children, path).trace
                  == TakeThrough(FullList(join, v, Some(route), route.children, path), Aborts(v))
               && WalkList(join, v, Some(route), route.children, path).broke
                  == Exists(FullList(join, v, Some(route), route.children, path), Aborts(v))
    ensures WalkNode(join, v, parent, route, root).trace
         == TakeThrough(FullNode(join, v, parent, route, root), Aborts(v))
    ensures WalkNode(join, v, parent, route, root).broke
         == Exists(FullNode(join, v, parent, route, root), Aborts(v))
  {
    var ref := NodeRef(parent, route, join(root, route.path));
    if Descends(v, ref) {
      var sub := FullList(join, v, Some(route), route.children, ref.path);
      var walked := WalkList(join, v, Some(route), route.children, ref.path);
      BracketTruncates(v, ref, sub, walked);
      assert WalkNode(join, v, parent, route, root) == Bracket(v, ref, walked);
      assert FullNode(join, v, parent, route, root) == [Enter(ref)] + sub + [Leave(ref)];
    } else {
      assert !Exists([], Aborts(v));
      BracketTruncates(v, ref, [], Walk([], false));
      assert WalkNode(join, v, parent, route, root) == Bracket(v, ref, Walk([], false));
      assert FullNode(join, v, parent, route, root) == [Enter(ref)] + [] + [Leave(ref)];
    }
  }

  /** What `WalkNode` does around the walk of its children, when `enter` did
      not abort. */
  function Bracket(v: Visitor, ref: NodeRef, walked: Walk): Walk {
    if walked.broke then Walk([Enter(ref)] + walked.trace, true)
    else Walk([Enter(ref)] + walked.trace + [Leave(ref)], IsTBreak(v.leave(ref.parent, ref.node, ref.path)))
  }

  lemma BracketTruncates(v: Visitor, ref: NodeRef, sub: seq<Event>, walked: Walk)
    requires !IsTBreak(v.enter(ref.parent, ref.node, ref.path))
    requires walked.trace == TakeThrough(sub, Aborts(v)) && walked.broke == Exists(sub, Aborts(v))
    ensures Bracket(v, ref, walked).trace == TakeThrough([Enter(ref)] + sub + [Leave(ref)], Aborts(v))
    ensures Bracket(v, ref, walked).broke == Exists([Enter(ref)] + sub + [Leave(ref)], Aborts(v))
  {
    TakeThroughBracket(Enter(ref), sub, Leave(ref), Aborts(v));
    assert Aborts(v)(Leave(ref)) == IsTBreak(v.leave(ref.parent, ref.node, ref.path));
    if walked.broke {
      assert Bracket(v, ref, walked) == Walk([Enter(ref)] + walked.trace, true);
    } else {
      assert Bracket(v, ref, walked) == Walk([Enter(ref)] + sub + [Leave(ref)], Aborts(v)(Leave(ref)));
    }
  }

  // ---------------------------------------------------------------------------
  // Skip: a pruned route's `leave` follows its `enter` at once.

  /** Whether index `i` of trace `t` is the `enter` of a route whose children
      were not walked, and the next call is that route's `leave`. */
  predicate LeaveFollowsPruned(v: Visitor, t: seq<Event>, i: int)
    requires 0 <= i < |t|
  {
    t[i].Enter? && !Descends(v, t[i].ref) ==> i + 1 < |t| && t[i + 1] == Leave(t[i].ref)
  }

  /** In trace `t`, every route whose children were not walked is left right
      after it is entered. */
  predicate PrunedLeaveAtOnce(v: Visitor, t: seq<Event>) {
    forall i :: 0 <= i < |t| ==> LeaveFollowsPruned(v, t, i)
  }

  /** In the break-free walk of a sibling list, a route whose children are not
      walked is left right after it is entered, and the `enter` calls are
      exactly the pruned pre-order listing: the children of a route whose
      `enter` returned -1 are never entered, and its later siblings are. */
  lemma {:induction false} PrunedLeavesAtOnceList(join: Joiner, v: Visitor, parent: Option<Node>, routes: seq<Node>, root: string)
    ensures PrunedLeaveAtOnce(v, FullList(join, v, parent, routes, root))
    ensures Enters(FullList(join, v, parent, routes, root)) == PrunedList(join, v, parent, routes, root)
    decreases routes
  {
    if routes != [] {
      var p := ListParent(parent, routes[0]);
      var a := FullNode(join, v, p, routes[0], root);
      var b := FullList(join, v, Some(p), routes[1..], root);
      PrunedLeavesAtOnceNode(join, v, p, routes[0], root);
      PrunedLeavesAtOnceList(join, v, Some(p), routes[1..], root);
      EntersAppend(a, b);
      PrunedLeaveAppend(v, a, b);
    }
  }

  /** The property survives concatenation: a trace that has it cannot end
      with a pruned `enter`. */
  lemma PrunedLeaveAppend(v: Visitor, a: seq<Event>, b: seq<Event>)
    requires PrunedLeaveAtOnce(v, a) && PrunedLeaveAtOnce(v, b)
    ensures PrunedLeaveAtOnce(v, a + b)
  {
    var t := a + b;
    forall i | 0 <= i < |t| ensures LeaveFollowsPruned(v, t, i) {
      if i < |a| {
        assert LeaveFollowsPruned(v, a, i);
        assert a[i] == t[i];
        if i + 1 < |a| { assert a[i + 1] == t[i + 1]; }
      } else {
        assert LeaveFollowsPruned(v, b, i - |a|);
        assert b[i - |a|] == t[i];
        if i - |a| + 1 < |b| { assert b[i - |a| + 1] == t[i + 1]; }
      }
    }
  }

  /** The same for the break-free walk of one route. */
  lemma {:induction false} PrunedLeavesAtOnceNode(join: Joiner, v: Visitor, parent: Node, route: Node, root: string)
    ensures PrunedLeaveAtOnce(v, FullNode(join, v, parent, route, root))
    ensures Enters(FullNode(join, v, parent, route, root)) == PrunedNode(join, v, parent, route, root)
    decreases route
  {
    var ref := NodeRef(parent, route, join(root, route.path));
    var sub := if Descends(v, ref) then FullList(join, v, Some(route), route.children, ref.path) else [];
    var t := FullNode(join, v, parent, route, root);
    assert t == [Enter(ref)] + sub + [Leave(ref)];
    if Descends(v, ref) {
      PrunedLeavesAtOnceList(join, v, Some(route), route.children, ref.path);
    } else if v.enter(parent, route, ref.path) != ToJs(Skip) {
      assert route.children == [];
    }
    EntersAppend([Enter(ref)] + sub, [Leave(ref)]);
    EntersAppend([Enter(ref)], sub);
    forall i | 0 <= i < |t| ensures LeaveFollowsPruned(v, t, i) {
      if i == 0 {
        if !Descends(v, ref) { assert sub == [] && t[1] == Leave(ref); }
      } else if i < |t| - 1 {
        assert t[i] == sub[i - 1];
        assert LeaveFollowsPruned(v, sub, i - 1);
        if i < |sub| { assert t[i + 1] == sub[i]; }
      }
    }
  }

  /** The routes `traverse` enters are, in order, a prefix of the pruned
      pre-order listing: the whole listing when nothing aborts. */
  lemma TraverseEntersPruned(join: Joiner, roots: Roots, v: Visitor)
    ensures Enters(Traverse(join, roots, v)) <= PrunedList(join, v, None, AsList(roots), "/")
    ensures !Exists(FullList(join, v, None, AsList(roots), "/"), Aborts(v))
            ==> Enters(Traverse(join, roots, v)) == PrunedList(join, v, None, AsList(roots), "/")
  {
    var full := FullList(join, v, None, AsList(roots), "/");
    EntersPrefix(TakeThrough(full, Aborts(v)), full);
    PrunedLeavesAtOnceList(join, v, None, AsList(roots), "/");
  }

  /** A prefix of a trace enters a prefix of its routes. */
  lemma EntersPrefix(t: seq<Event>, full: seq<Event>)
    requires t <= full
    ensures Enters(t) <= Enters(full)
  {
    assert full == t + full[|t|..];
    EntersAppend(t, full[|t|..]);
  }

  /** A route whose `enter` neither aborts nor lets the walk descend (it
      returned -1, or the route is childless) is left at once, and the
      `reduce` then goes on with the remaining siblings unless that `leave`
      aborts; the break-free walk goes on with them in any case. */
  lemma PrunedRouteThenSiblings(join: Joiner, v: Visitor, parent: Option<Node>, routes: seq<Node>, root: string)
    requires routes != []
    requires var p := ListParent(parent, routes[0]);
             var ref := NodeRef(p, routes[0], join(root, routes[0].path));
             !IsTBreak(v.enter(p, routes[0], ref.path)) && !Descends(v, ref)
    ensures var p := ListParent(parent, routes[0]);
            var ref := NodeRef(p, routes[0], join(root, routes[0].path));
            && FullList(join, v, parent, routes, root)
               == [Enter(ref), Leave(ref)] + FullList(join, v, Some(p), routes[1..], root)
            && WalkList(join, v, parent, routes, root).trace
               == [Enter(ref), Leave(ref)]
                  + (if IsTBreak(v.leave(p, routes[0], ref.path)) then []
                     else WalkList(join, v, Some(p), routes[1..], root).trace)
  {
    var p := ListParent(parent, routes[0]);
    var ref := NodeRef(p, routes[0], join(root, routes[0].path));
    assert FullNode(join, v, p, routes[0], root) == [Enter(ref), Leave(ref)];
    assert WalkNode(join, v, p, routes[0], root) == Walk([Enter(ref), Leave(ref)], IsTBreak(v.leave(p, routes[0], ref.path)));
  }

  // ---------------------------------------------------------------------------
  // Paths and parents: every call receives a pre-order (parent, node, path).

  /** Every call of trace `t` receives one of the references `refs`. */
  predicate CallsAmong(t: seq<Event>, refs: seq<NodeRef>) {
    forall i :: 0 <= i < |t| ==> t[i].ref in refs
  }

  lemma {:induction false} EventsArePreOrderList(join: Joiner, v: Visitor, parent: Option<Node>, routes: seq<Node>, root: string)
    ensures CallsAmong(FullList(join, v, parent, routes, root), PreOrderList(join, parent, routes, root))
    decreases routes
  {
    if routes != [] {
      var p := ListParent(parent, routes[0]);
      var a := FullNode(join, v, p, routes[0], root);
      var b := FullList(join, v, Some(p), routes[1..], root);
      var ra := PreOrderNode(join, p, routes[0], root);
      var rb := PreOrderList(join, Some(p), routes[1..], root);
      EventsArePreOrderNode(join, v, p, routes[0], root);
      EventsArePreOrderList(join, v, Some(p), routes[1..], root);
      var t := a + b;
      assert FullList(join, v, parent, routes, root) == t;
      assert PreOrderList(join, parent, routes, root) == ra + rb;
      forall i | 0 <= i < |t| ensures t[i].ref in ra + rb {
        if i < |a| {
          assert a[i] == t[i] && a[i].ref in ra;
        } else {
          assert b[i - |a|] == t[i] && b[i - |a|].ref in rb;
        }
      }
    }
  }

  lemma {:induction false} EventsArePreOrderNode(join: Joiner, v: Visitor, parent: Node, route: Node, root: string)
    ensures CallsAmong(FullNode(join, v, parent, route, root), PreOrderNode(join, parent, route, root))
    decreases route
  {
    var ref := NodeRef(parent, route, join(root, route.path));
    var sub := if Descends(v, ref) then FullList(join, v, Some(route), route.children, ref.path) else [];
    var rs := PreOrderList(join, Some(route), route.children, ref.path);
    var t := FullNode(join, v, parent, route, root);
    assert t == [Enter(ref)] + sub + [Leave(ref)];
    assert PreOrderNode(join, parent, route, root) == [ref] + rs;
    if Descends(v, ref) {
      EventsArePreOrderList(join, v, Some(route), route.children, ref.path);
    }
    forall i | 0 <= i < |t| ensures t[i].ref in [ref] + rs {
      if 0 < i < |t| - 1 {
        assert t[i] == sub[i - 1] && sub[i - 1].ref in rs;
      }
    }
  }

  /** With an `enter` that never returns -1, the `enter` calls are exactly the
      pre-order listing: every route is entered once, parents first. */
  lemma {:induction false} UnprunedEntersList(join: Joiner, v: Visitor, parent: Option<Node>, routes: seq<Node>, root: string)
    requires forall p, n, s :: v.enter(p, n, s) != ToJs(Skip)
    ensures Enters(FullList(join, v, parent, routes, root)) == PreOrderList(join, parent, routes, root)
    decreases routes
  {
    if routes != [] {
      var p := ListParent(parent, routes[0]);
      UnprunedEntersNode(join, v, p, routes[0], root);
      UnprunedEntersList(join, v, Some(p), routes[1..], root);
      EntersAppend(FullNode(join, v, p, routes[0], root), FullList(join, v, Some(p), routes[1..], root));
    }
  }

  lemma {:induction false} UnprunedEntersNode(join: Joiner, v: Visitor, parent: Node, route: Node, root: string)
    requires forall p, n, s :: v.enter(p, n, s) != ToJs(Skip)
    ensures Enters(FullNode(join, v, parent, route, root)) == PreOrderNode(join, parent, route, root)
    decreases route
  {
    var ref := NodeRef(parent, route, join(root, route.path));
    var sub := FullList(join, v, Some(route), route.children, ref.path);
    UnprunedEntersList(join, v, Some(route), route.children, ref.path);
    if Descends(v, ref) {
      assert FullNode(join, v, parent, route, root) == [Enter(ref)] + sub + [Leave(ref)];
      EntersAppend([Enter(ref)] + sub, [Leave(ref)]);
      EntersAppend([Enter(ref)], sub);
    } else {
      assert route.children == [];
      assert FullNode(join, v, parent, route, root) == [Enter(ref)] + [Leave(ref)];
      EntersAppend([Enter(ref)], [Leave(ref)]);
    }
  }

  /** The nodes a list of references names, in order. */
  function NodesOfRefs(refs: seq<NodeRef>): seq<Node> {
    if refs == [] then [] else [refs[0].node] + NodesOfRefs(refs[1..])
  }

  lemma {:induction false} NodesOfRefsAppend(a: seq<NodeRef>, b: seq<NodeRef>)
    ensures NodesOfRefs(a + b) == NodesOfRefs(a) + NodesOfRefs(b)
  {
    if a == [] {
      assert a + b == b;
    } else {
      assert (a + b)[0] == a[0] && (a + b)[1..] == a[1..] + b;
      NodesOfRefsAppend(a[1..], b);
    }
  }

  /** The pre-order listing names the forest's nodes in pre-order, each node
      once, so it has one entry per node. */
  lemma {:induction false} PreOrderNodesList(join: Joiner, parent: Option<Node>, routes: seq<Node>, root: string)
    ensures NodesOfRefs(PreOrderList(join, parent, routes, root)) == NodesOfAll(routes)
    ensures |PreOrderList(join, parent, routes, root)| == SizeOfAll(routes)
    decreases routes
  {
    if routes != [] {
      var p := ListParent(parent, routes[0]);
      PreOrderNodesNode(join, p, routes[0], root);
      PreOrderNodesList(join, Some(p), routes[1..], root);
      NodesOfRefsAppend(PreOrderNode(join, p, routes[0], root), PreOrderList(join, Some(p), routes[1..], root));
    }
  }

  lemma {:induction false} PreOrderNodesNode(join: Joiner, parent: Node, route: Node, root: string)
    ensures NodesOfRefs(PreOrderNode(join, parent, route, root)) == NodesOf(route)
    ensures |PreOrderNode(join, parent, route, root)| == Size(route)
    decreases route
  {
    var path := join(root, route.path);
    var rest := PreOrderList(join, Some(route), route.children, path);
    PreOrderNodesList(join, Some(route), route.children, path);
    NodesOfRefsAppend([NodeRef(parent, route, path)], rest);
  }

  /** Below a list walked with parent `p`, each reference either names `p` and
      one of the listed routes, or names a node's real parent. */
  lemma {:induction false} PreOrderParentsList(join: Joiner, p: Node, routes: seq<Node>, root: string)
    ensures forall r :: r in PreOrderList(join, Some(p), routes, root) ==>
              (r.parent == p && r.node in routes) || r.node in r.parent.children
    decreases routes
  {
    if routes != [] {
      PreOrderParentsNode(join, p, routes[0], root);
      PreOrderParentsList(join, p, routes[1..], root);
    }
  }

  lemma {:induction false} PreOrderParentsNode(join: Joiner, parent: Node, route: Node, root: string)
    ensures PreOrderNode(join, parent, route, root)[0] == NodeRef(parent, route, join(root, route.path))
    ensures forall r :: r in PreOrderNode(join, parent, route, root)[1..] ==> r.node in r.parent.children
    decreases route
  {
    var path := join(root, route.path);
    PreOrderParentsList(join, route, route.children, path);
    assert PreOrderNode(join, parent, route, root)[1..] == PreOrderList(join, Some(route), route.children, path);
  }

  /** The listings of the subtrees of `routes`, each walked with parent `p`. */
  function SubtreesWith(join: Joiner, p: Node, routes: seq<Node>, root: string): seq<seq<NodeRef>> {
    seq(|routes|, i requires 0 <= i < |routes| => PreOrderNode(join, p, routes[i], root))
  }

  /** A list walked with parent `p` passes `p` to every one of its routes. */
  lemma {:induction false} SameParentList(join: Joiner, p: Node, routes: seq<Node>, root: string)
    ensures PreOrderList(join, Some(p), routes, root) == Concat(SubtreesWith(join, p, routes, root))
    decreases routes
  {
    if routes != [] {
      SameParentList(join, p, routes[1..], root);
      assert SubtreesWith(join, p, routes, root)[1..] == SubtreesWith(join, p, routes[1..], root);
    }
  }

  /** The parent quirk of `traverse`: every top-level route is passed the FIRST
      top-level route as its parent (the listing is the concatenation of the
      top-level subtrees, each with `routes[0]` as parent); every nested node
      gets its real parent. */
  lemma TopLevelParentIsFirstRoute(join: Joiner, routes: seq<Node>, root: string)
    requires routes != []
    ensures PreOrderList(join, None, routes, root) == Concat(SubtreesWith(join, routes[0], routes, root))
    ensures forall r :: r in PreOrderList(join, None, routes, root) ==>
              (r.parent == routes[0] && r.node in routes) || r.node in r.parent.children
  {
    assert PreOrderList(join, None, routes, root) == PreOrderList(join, Some(routes[0]), routes, root);
    PreOrderParentsList(join, routes[0], routes, root);
    SameParentList(join, routes[0], routes, root);
  }

  /** With the default visitor nothing aborts or prunes: `traverse` enters every
      node exactly once, in pre-order, and leaves every one of them. */
  lemma DefaultVisitorVisitsAll(join: Joiner, roots: Roots)
    ensures var t := Traverse(join, roots, Visitor(NoOp(), NoOp()));
            && Enters(t) == PreOrderList(join, None, AsList(roots), "/")
            && |t| == 2 * SizeOfAll(AsList(roots))
  {
    var v := Visitor(NoOp(), NoOp());
    var full := FullList(join, v, None, AsList(roots), "/");
    assert !Exists(full, Aborts(v)) by {
      forall i | 0 <= i < |full| ensures !Aborts(v)(full[i]) {
        assert Response(v, full[i]) == ToJs(Normal);
      }
    }
    UnprunedEntersList(join, v, None, AsList(roots), "/");
    PreOrderNodesList(join, None, AsList(roots), "/");
    FullWalkLength(join, v, None, AsList(roots), "/");
  }

  /** Without pruning, the walk makes two calls per node. */
  lemma {:induction false} FullWalkLength(join: Joiner, v: Visitor, parent: Option<Node>, routes: seq<Node>, root: string)
    requires forall p, n, s :: v.enter(p, n, s) != ToJs(Skip)
    ensures |FullList(join, v, parent, routes, root)| == 2 * SizeOfAll(routes)
    decreases routes
  {
    if routes != [] {
      var p := ListParent(parent, routes[0]);
      var route := routes[0];
      var path := join(root, route.path);
      FullWalkLength(join, v, Some(route), route.children, path);
      FullWalkLength(join, v, Some(p), routes[1..], root);
    }
  }
}
