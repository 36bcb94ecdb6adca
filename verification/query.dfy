/** Query strings: `param` and the query step of `resolveRoutePath`
    (src/index.ts:19-27 and 227-251). Percent-encoding, value stringification,
    URL resolution and parameter filling belong to code this model does not
    see; they are parameters. */
module Query {
  import opened Seqs
  import opened Signals
  import opened Paths
  import opened Tree

  /** A plain object, as the key/value pairs `Object.keys` lists in order. */
  type Kv = seq<(string, JsValue)>

  /** `encodeURIComponent`. */
  type Encoder = string -> string

  /** The string a template literal makes of a value. */
  type Stringify = JsValue -> string

  /** `v != null`: loose inequality rules out exactly null and undefined. */
  predicate Present(v: JsValue) {
    v != Null && v != Undefined
  }

  /** One `key=value` pair, both sides encoded. */
  function Pair(enc: Encoder, str: Stringify, kv: (string, JsValue)): string {
    enc(kv.0) + "=" + enc(str(kv.1))
  }

  /** The pairs the encoder emits, in key order: one per present value. */
  function Pairs(enc: Encoder, str: Stringify, o: Kv): (r: seq<string>)
    ensures |r| <= |o|
    ensures r == [] <==> forall i :: 0 <= i < |o| ==> !Present(o[i].1)
  {
    if o == [] then []
    else
      var rest := Pairs(enc, str, o[1..]);
      assert forall i :: 1 <= i < |o| ==> o[i] == o[1..][i - 1];
      if Present(o[0].1) then [Pair(enc, str, o[0])] + rest else rest
  }

  /** One step of the `reduce`: a present value appends `&key=value`. */
  function Step(enc: Encoder, str: Stringify, acc: string, kv: (string, JsValue)): string {
    if Present(kv.1) then acc + ("&" + Pair(enc, str, kv)) else acc
  }

  /** The `reduce` over the keys, from accumulator `acc`. */
  function Fold(enc: Encoder, str: Stringify, o: Kv, acc: string): string
    decreases |o|
  {
    if o == [] then acc else Fold(enc, str, o[1..], Step(enc, str, acc, o[0]))
  }

  /** Every pair preceded by `&`: what `param` makes of a list of pairs. */
  function Led(ps: seq<string>): string {
    if ps == [] then "" else "&" + JoinWith(ps, '&')
  }

  /** `param(o)`: empty for an empty object, otherwise `&` before each encoded
      pair, so a non-empty result always starts with `&`. */
  function Param(enc: Encoder, str: Stringify, o: Kv): (r: string)
    ensures r == Led(Pairs(enc, str, o))
    ensures r == "" <==> forall i :: 0 <= i < |o| ==> !Present(o[i].1)
    ensures r != "" ==> r[0] == '&'
  {
    if o == [] then ""
    else
      FoldLeadsEachPair(enc, str, o, "");
      Fold(enc, str, o, "")
  }

  /** Leading a list with one more pair. */
  lemma LedCons(p: string, ps: seq<string>)
    ensures Led([p] + ps) == ("&" + p) + Led(ps)
  {
  }

  lemma {:induction false} FoldLeadsEachPair(enc: Encoder, str: Stringify, o: Kv, acc: string)
    ensures Fold(enc, str, o, acc) == acc + Led(Pairs(enc, str, o))
    decreases |o|
  {
    if o == [] {
      assert acc + "" == acc;
    } else {
      var step := Step(enc, str, acc, o[0]);
      FoldLeadsEachPair(enc, str, o[1..], step);
      var ps := Pairs(enc, str, o[1..]);
      if Present(o[0].1) {
        var p := Pair(enc, str, o[0]);
        assert Pairs(enc, str, o) == [p] + ps;
        LedCons(p, ps);
        AppendAssoc(acc, "&" + p, Led(ps));
      } else {
        assert Pairs(enc, str, o) == ps;
      }
    }
  }

  /** No pair contains `&` when the encoder never emits one. */
  lemma PairsHaveNoAmpersand(enc: Encoder, str: Stringify, o: Kv)
    requires forall s :: '&' !in enc(s)
    ensures forall i :: 0 <= i < |Pairs(enc, str, o)| ==> '&' !in Pairs(enc, str, o)[i]
  {
  }

  /** With `encodeURIComponent` (which never emits `&`), splitting the output of
      `param` after its leading `&` gives back exactly the emitted pairs. */
  lemma ParamSplitsIntoPairs(enc: Encoder, str: Stringify, o: Kv)
    requires forall s :: '&' !in enc(s)
    requires Pairs(enc, str, o) != []
    ensures Split(Param(enc, str, o)[1..], '&') == Pairs(enc, str, o)
  {
    var ps := Pairs(enc, str, o);
    PairsHaveNoAmpersand(enc, str, o);
    assert Param(enc, str, o)[1..] == JoinWith(ps, '&');
    SplitJoin(ps, '&');
  }

  /** `path.indexOf('?') === -1 ? '?' : '&'`. */
  function QueryToken(path: string): (t: string)
    ensures t == "?" <==> '?' !in path
    ensures t == "?" || t == "&"
  {
    if IndexOf(path, "?") == -1 then
      assert forall j :: 0 <= j < |path| ==> path[j] != '?' by {
        forall j | 0 <= j < |path| ensures path[j] != '?' {
          assert !OccursAt(path, "?", j);
          assert path[j..j + 1] == [path[j]];
        }
      }
      "?"
    else
      var j := IndexOf(path, "?");
      assert path[j..j + 1] == "?";
      assert path[j] == '?';
      "&"
  }

  /** The query step of `resolveRoutePath` as written: a non-empty object
      appends the token and then `param`'s output, which itself opens with `&`. */
  function AppendQuery(enc: Encoder, str: Stringify, path: string, query: Kv): (r: string)
    ensures query == [] ==> r == path
    ensures query != [] ==> r == path + QueryToken(path) + Led(Pairs(enc, str, query))
  {
    if query == [] then path else path + QueryToken(path) + Param(enc, str, query)
  }

  /** The query the as-written step appends to a path without `?` has an empty
      first pair: `/foo` with `{q: 'x'}` becomes `/foo?&q=x`. */
  lemma AppendQueryOpensWithEmptyPair(enc: Encoder, str: Stringify, path: string, query: Kv)
    requires '?' !in path
    requires Pairs(enc, str, query) != []
    ensures var r := AppendQuery(enc, str, path, query);
            |r| >= |path| + 2 && r[|path|] == '?' && r[|path| + 1] == '&'
    ensures Split(AppendQuery(enc, str, path, query)[|path| + 1..], '&')[0] == ""
  {
  }

  /** An encoder that leaves its input alone, for concrete instances. */
  function Verbatim(s: string): string {
    s
  }

  /** A stringification that keeps strings and drops everything else. */
  function TextOf(v: JsValue): string {
    if v.Str? then v.s else ""
  }

  /** A concrete instance: `/foo` with `{q: 'x'}` gives `/foo?&q=x`. */
  lemma FooQueryAsWritten()
    ensures AppendQuery(Verbatim, TextOf, "/foo", [("q", Str("x"))]) == "/foo?&q=x"
  {
    FooPairs();
    FooToken();
    assert Led(["q=x"]) == "&q=x";
    assert AppendQuery(Verbatim, TextOf, "/foo", [("q", Str("x"))]) == "/foo" + "?" + "&q=x";
  }

  /** The token of the concrete instance. */
  lemma FooToken()
    ensures QueryToken("/foo") == "?"
  {
    assert '?' !in "/foo";
  }

  /** The one pair of the concrete instance. */
  lemma FooPairs()
    ensures Pairs(Verbatim, TextOf, [("q", Str("x"))]) == ["q=x"]
  {
    var o: Kv := [("q", Str("x"))];
    assert o[1..] == [];
    assert Pair(Verbatim, TextOf, o[0]) == "q=x";
  }

  /** The query step as evidently intended: the token, then the pairs joined
      by `&`, and nothing at all when no value is present. */
  function AppendQueryIntended(enc: Encoder, str: Stringify, path: string, query: Kv): (r: string)
    ensures Pairs(enc, str, query) == [] ==> r == path
    ensures Pairs(enc, str, query) != [] ==> |r| > |path| && r[..|path|] == path
    ensures Pairs(enc, str, query) != [] ==> AppendQuery(enc, str, path, query) == r[..|path| + 1] + "&" + r[|path| + 1..]
  {
    var ps := Pairs(enc, str, query);
    if ps == [] then path
    else
      var head := path + QueryToken(path);
      var joined := JoinWith(ps, '&');
      var r := head + joined;
      assert |head| == |path| + 1;
      assert r[..|path| + 1] == head && r[|path| + 1..] == joined;
      assert r[..|path|] == path;
      AppendAssoc(head, "&", joined);
      r
  }

  /** The intended step keeps the path, adds one token and then exactly the
      emitted pairs, each recoverable by splitting at `&`. */
  lemma AppendQueryIntendedRoundTrip(enc: Encoder, str: Stringify, path: string, query: Kv)
    requires forall s :: '&' !in enc(s)
    requires Pairs(enc, str, query) != []
    ensures var r := AppendQueryIntended(enc, str, path, query);
            |r| > |path| && r[..|path|] == path && r[|path|..|path| + 1] == QueryToken(path)
            && Split(r[|path| + 1..], '&') == Pairs(enc, str, query)
  {
    var ps := Pairs(enc, str, query);
    var r := AppendQueryIntended(enc, str, path, query);
    assert r == path + QueryToken(path) + JoinWith(ps, '&');
    assert r[|path| + 1..] == JoinWith(ps, '&');
    PairsHaveNoAmpersand(enc, str, query);
    SplitJoin(ps, '&');
  }

  // ---------------------------------------------------------------------------
  // resolveRoutePath

  /** `resolveUrl(base, path, append)` from a library this model does not see. */
  type Resolver = (string, string, bool) -> string

  /** `fillParams(path, params)` (src/params.ts is not part of this model). */
  type Filler = (string, Kv) -> string

  /** The `TNode | string` route argument. */
  datatype Route = PathString(s: string) | RouteNode(node: Node)

  /** `ResolveRouteOptions`; an absent object and an empty one are both `[]`. */
  datatype ResolveOptions = ResolveOptions(base: Option<string>, params: Kv, query: Kv, append: bool)

  /** The path before the query step: resolved against the base (`/` when
      none is given), then filled when there are parameters. */
  function Filled(resolve: Resolver, fill: Filler, route: Route, opts: ResolveOptions): string {
    var base := if opts.base.Some? then opts.base.value else "/";
    var raw := if route.PathString? then route.s else route.node.path;
    var path := resolve(base, raw, opts.append);
    if opts.params == [] then path else fill(path, opts.params)
  }

  /** `resolveRoutePath(route, options)`: the filled path, followed, when there
      is a query object, by a token that is `?` exactly when the path has none. */
  function ResolveRoutePath(resolve: Resolver, fill: Filler, enc: Encoder, str: Stringify,
                            route: Route, opts: ResolveOptions): (r: string)
    ensures var path := Filled(resolve, fill, route, opts);
            |path| <= |r| && r[..|path|] == path
            && (opts.query == [] <==> r == path)
            && (opts.query != [] ==> (r[|path|] == '?' <==> '?' !in path))
  {
    AppendQuery(enc, str, Filled(resolve, fill, route, opts), opts.query)
  }

  /** `resolveRoutePath` with the intended query step. */
  function ResolveRoutePathIntended(resolve: Resolver, fill: Filler, enc: Encoder, str: Stringify,
                                    route: Route, opts: ResolveOptions): (r: string)
    ensures var path := Filled(resolve, fill, route, opts);
            |path| <= |r| && r[..|path|] == path
            && (Pairs(enc, str, opts.query) == [] <==> r == path)
  {
    AppendQueryIntended(enc, str, Filled(resolve, fill, route, opts), opts.query)
  }
}
