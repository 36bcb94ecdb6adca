/** The route tree (`TNode`), the reference a walk hands to a visitor
    (`TNodeRef`), and the two foreign inputs every walk takes: the path joiner
    and a visitor callback (src/index.ts:29-41). */
module Tree {
  import opened Signals

  /** A route: its relative `path`, its ordered children (a missing `children`
      field and an empty one behave alike everywhere in the walker) and the
      caller's own fields, which the walker never looks at. */
  datatype Node = Node(path: string, children: seq<Node>, fields: map<string, JsValue>)

  /** The `T | T[]` argument of `traverse` and `bfsTraversal`. */
  datatype Roots = One(node: Node) | Many(nodes: seq<Node>)

  /** `TNodeRef`: the node, the parent the walk passed with it, and its resolved
      path. The walkers in this library always pass a parent. */
  datatype NodeRef = NodeRef(parent: Node, node: Node, path: string)

  /** `resolveUrl(root, segment, true)` from a library this model does not see. */
  type Joiner = (string, string) -> string

  /** A visitor `(parent, node, path) => TReturn | boolean`; it may return any
      JavaScript value. */
  type Callback = (Node, Node, string) -> JsValue

  /** A single root is walked as a one-element list. */
  function AsList(roots: Roots): seq<Node> {
    match roots
    case One(n) => [n]
    case Many(ns) => ns
  }

  /** Number of nodes in a tree. */
  function Size(n: Node): nat {
    1 + SizeOfAll(n.children)
  }

  /** The nodes of a tree in pre-order, one entry per node. */
  function NodesOf(n: Node): (r: seq<Node>)
    ensures |r| == Size(n) && r[0] == n
  {
    [n] + NodesOfAll(n.children)
  }

  /** The nodes of a forest in pre-order, one entry per node. */
  function NodesOfAll(ns: seq<Node>): (r: seq<Node>)
    ensures |r| == SizeOfAll(ns)
  {
    if ns == [] then [] else NodesOf(ns[0]) + NodesOfAll(ns[1..])
  }

  /** Number of nodes in a forest. */
  function SizeOfAll(ns: seq<Node>): nat {
    if ns == [] then 0 else Size(ns[0]) + SizeOfAll(ns[1..])
  }
}
