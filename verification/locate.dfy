/** `normalizeMatcher` and `findNodeRef` (src/index.ts:159-210): turn a target
    path or a visitor into a three-way predicate, drive one of the two walks
    with it, and capture the context at which it signals Break. */
module Locate {
  import opened Seqs
  import opened Signals
  import opened Paths
  import opened Tree
  import Traverse
  import Bfs

  /** The `IVisitor | string` matcher argument. */
  datatype Matcher = Target(target: string) | Visit(visitor: Callback)

  /** `MatcherOptions`: an optional scoping prefix and the choice of walk. */
  datatype MatcherOptions = MatcherOptions(prefix: Option<string>, bfs: bool)

  /** The `TypeError` thrown for a node list that is not an array. */
  datatype Result<+T> = Ok(value: T) | TypeError(message: string)

  /** A `prefix` option takes effect only when it is a non-empty string. */
  predicate HasPrefix(opts: MatcherOptions) {
    opts.prefix.Some? && opts.prefix.value != ""
  }

  /** The predicate `normalizeMatcher(matcher, options)` builds, applied to one
      context. A target path ignores the prefix option. */
  function Normalized(matcher: Matcher, opts: MatcherOptions, parent: Node, node: Node, path: string): (r: TReturn)
    ensures matcher.Target? ==> (r == Skip <==> !(path <= matcher.target))
    ensures matcher.Target? ==> (r == Break <==> path == matcher.target)
    ensures matcher.Visit? && HasPrefix(opts) && MatchPath(opts.prefix.value, path) == Skip ==> r == Skip
    ensures matcher.Visit? && !(HasPrefix(opts) && MatchPath(opts.prefix.value, path) == Skip)
            ==> r == NormalizeTReturn(matcher.visitor(parent, node, path))
  {
    match matcher
    case Visit(f) =>
      if HasPrefix(opts) then
        if MatchPath(opts.prefix.value, path) == Skip then Skip
        else NormalizeTReturn(f(parent, node, path))
      else NormalizeTReturn(f(parent, node, path))
    case Target(t) =>
      if IndexOf(t, path) != 0 then Skip
      else if t == path then Break
      else Normal
  }

  /** The callback `findNodeRef` hands to the walk: the normalized predicate,
      returned as the enum's run-time value. */
  function Wrapped(matcher: Matcher, opts: MatcherOptions): Callback {
    (parent: Node, node: Node, path: string) => ToJs(Normalized(matcher, opts, parent, node, path))
  }

  /** The contexts at which the predicate signals Break. */
  function Hits(matcher: Matcher, opts: MatcherOptions): NodeRef -> bool {
    (ref: NodeRef) => Normalized(matcher, opts, ref.parent, ref.node, ref.path) == Break
  }

  /** The `enter` calls at which the wrapper stores `context`. */
  function Stores(v: Traverse.Visitor): Traverse.Event -> bool {
    (e: Traverse.Event) => e.Enter? && IsTBreak(Traverse.Response(v, e))
  }

  function RefOf(e: Option<Traverse.Event>): Option<NodeRef> {
    if e.Some? then Some(e.value.ref) else None
  }

  /** `findNodeRef(routes, matcher, options)`: `context` is overwritten at every
      call whose predicate signals Break, and returned at the end. */
  function FindNodeRef(join: Joiner, routes: Roots, matcher: Matcher, opts: MatcherOptions): (r: Result<Option<NodeRef>>)
    ensures r.TypeError? <==> routes.One?
    ensures r.Ok? && r.value.Some? ==> Hits(matcher, opts)(r.value.value)
  {
    match routes
    case One(_) => TypeError("Invalid node list")
    case Many(ns) =>
      var cb := Wrapped(matcher, opts);
      if opts.bfs then
        var run := Bfs.RunQueue(join, cb, Bfs.RootCtxs(join, ns));
        BfsFindsFirst(join, ns, matcher, opts);
        Ok(Record(run.visits, Bfs.Stops(cb), None))
      else
        var v := Traverse.Visitor(cb, Traverse.NoOp());
        DfsFindsFirst(join, ns, matcher, opts);
        Ok(RefOf(Record(Traverse.Traverse(join, Many(ns), v), Stores(v), None)))
  }

  // ---------------------------------------------------------------------------
  // The captured context is the first hit of the walk's visiting order.

  /** Depth first: the result is the first `enter` context, in the order the
      break-free walk enters them, at which the predicate signals Break. */
  lemma DfsFindsFirst(join: Joiner, ns: seq<Node>, matcher: Matcher, opts: MatcherOptions)
    ensures var v := Traverse.Visitor(Wrapped(matcher, opts), Traverse.NoOp());
            RefOf(Record(Traverse.Traverse(join, Many(ns), v), Stores(v), None))
            == FirstWhere(Traverse.Enters(Traverse.FullList(join, v, None, ns, "/")), Hits(matcher, opts))
  {
    var v := Traverse.Visitor(Wrapped(matcher, opts), Traverse.NoOp());
    var full := Traverse.FullList(join, v, None, ns, "/");
    forall i | 0 <= i < |full|
      ensures Traverse.Aborts(v)(full[i]) <==> Stores(v)(full[i])
    {
      if full[i].Leave? {
        assert Traverse.Response(v, full[i]) == ToJs(Normal);
      }
    }
    RecordThroughFirst(full, Traverse.Aborts(v), Stores(v));
    FirstStoredEnter(v, full, matcher, opts);
  }

  lemma {:induction false} FirstStoredEnter(v: Traverse.Visitor, t: seq<Traverse.Event>, matcher: Matcher, opts: MatcherOptions)
    requires v.enter == Wrapped(matcher, opts)
    ensures RefOf(FirstWhere(t, Stores(v))) == FirstWhere(Traverse.Enters(t), Hits(matcher, opts))
  {
    if t != [] {
      FirstStoredEnter(v, t[1..], matcher, opts);
      var e := t[0];
      if e.Enter? {
        assert Stores(v)(e) <==> Hits(matcher, opts)(e.ref);
        assert Traverse.Enters(t) == [e.ref] + Traverse.Enters(t[1..]);
        assert ([e.ref] + Traverse.Enters(t[1..]))[1..] == Traverse.Enters(t[1..]);
      } else {
        assert Traverse.Enters(t) == Traverse.Enters(t[1..]);
      }
    }
  }

  /** Breadth first: the result is the first context in level order at which
      the predicate signals Break. */
  lemma BfsFindsFirst(join: Joiner, ns: seq<Node>, matcher: Matcher, opts: MatcherOptions)
    ensures var cb := Wrapped(matcher, opts);
            Record(Bfs.RunQueue(join, cb, Bfs.RootCtxs(join, ns)).visits, Bfs.Stops(cb), None)
            == FirstWhere(Bfs.LevelOrder(join, cb, Bfs.RootCtxs(join, ns)), Hits(matcher, opts))
  {
    var cb := Wrapped(matcher, opts);
    var init := Bfs.RootCtxs(join, ns);
    Bfs.RunTruncates(join, cb, init);
    Bfs.AllVisitsIsLevelOrder(join, cb, init);
    var order := Bfs.LevelOrder(join, cb, init);
    forall i | 0 <= i < |order|
      ensures Bfs.Stops(cb)(order[i]) <==> Hits(matcher, opts)(order[i])
    {
    }
    RecordThroughFirst(order, Bfs.Stops(cb), Bfs.Stops(cb));
    FirstWhereSame(order, Bfs.Stops(cb), Hits(matcher, opts));
  }

  lemma FirstWhereSame<T>(s: seq<T>, p: T -> bool, q: T -> bool)
    requires forall i :: 0 <= i < |s| ==> (p(s[i]) <==> q(s[i]))
    ensures FirstWhere(s, p) == FirstWhere(s, q)
  {
  }

  // ---------------------------------------------------------------------------
  // Consequences for the two matcher forms.

  /** A target path is found only at a context whose resolved path is exactly
      the target. */
  lemma TargetFoundAtExactPath(join: Joiner, ns: seq<Node>, target: string, opts: MatcherOptions)
    ensures var r := FindNodeRef(join, Many(ns), Target(target), opts);
            r.Ok? && (r.value.Some? ==> r.value.value.path == target)
  {
  }

  /** With a prefix option, a visitor's search never reports a context whose
      path's segments differ from the prefix's. */
  lemma PrefixScopesSearch(join: Joiner, ns: seq<Node>, f: Callback, opts: MatcherOptions)
    requires HasPrefix(opts)
    ensures var r := FindNodeRef(join, Many(ns), Visit(f), opts);
            r.Ok? && (r.value.Some? ==> MatchPath(opts.prefix.value, r.value.value.path) != Skip)
  {
  }

  /** Not found means no context the walk explores makes the predicate break. */
  lemma NotFoundMeansNoHit(join: Joiner, ns: seq<Node>, matcher: Matcher, opts: MatcherOptions)
    requires FindNodeRef(join, Many(ns), matcher, opts) == Ok(None)
    ensures !opts.bfs ==>
              var v := Traverse.Visitor(Wrapped(matcher, opts), Traverse.NoOp());
              !Exists(Traverse.Enters(Traverse.FullList(join, v, None, ns, "/")), Hits(matcher, opts))
    ensures opts.bfs ==>
              var cb := Wrapped(matcher, opts);
              !Exists(Bfs.LevelOrder(join, cb, Bfs.RootCtxs(join, ns)), Hits(matcher, opts))
  {
    if opts.bfs {
      BfsFindsFirst(join, ns, matcher, opts);
    } else {
      DfsFindsFirst(join, ns, matcher, opts);
    }
  }
}
