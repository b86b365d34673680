/**
  The part of a specification tree node that the binary exporter reads,
  and the depth-first pre-order in which the exporter visits nodes.
 */
module VssTree {
  import opened Wrappers
  import opened Constants

  /**
    A node of the tree. `nodeType` is one of the `VSSType` constants,
    `dataType` a `VSSDataType` constant when the node has one, `unit` a
    `Unit` constant when it has one. `min`, `max` and `defaultValue` are
    the node's texts, empty when the node does not set them; `allowed` is
    its list of allowed values, empty when it has none. Children are kept
    in their order in the tree.
   */
  datatype Node = Node(
    name: string,
    nodeType: Constant,
    description: string,
    dataType: Option<Constant>,
    unit: Option<Constant>,
    min: string,
    max: string,
    defaultValue: string,
    allowed: seq<string>,
    deprecation: string,
    comment: string,
    aggregate: Option<string>,
    uuid: string,
    children: seq<Node>)

  /** The number of nodes in the subtree rooted at `n`. */
  function Size(n: Node): (r: nat)
    ensures r >= 1
    decreases n, 1
  {
    1 + SizeForest(n.children)
  }

  /** The number of nodes in a sequence of subtrees. */
  function SizeForest(ts: seq<Node>): (r: nat)
    ensures |ts| > 0 ==> r >= |ts|
    decreases ts, 0
  {
    if |ts| == 0 then 0 else Size(ts[0]) + SizeForest(ts[1..])
  }

  /** The subtree rooted at `n`, node before its children, children in order: one entry per node, the root first. */
  function PreOrder(n: Node): (r: seq<Node>)
    ensures |r| == Size(n)
    ensures r[0] == n
    decreases n, 1
  {
    [n] + PreOrderForest(n.children)
  }

  /** The pre-order listings of a sequence of subtrees, one after the other. */
  function PreOrderForest(ts: seq<Node>): (r: seq<Node>)
    ensures |r| == SizeForest(ts)
    decreases ts, 0
  {
    if |ts| == 0 then [] else PreOrder(ts[0]) + PreOrderForest(ts[1..])
  }
}
