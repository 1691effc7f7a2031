/**
 * The layer store a syntax cursor walks: one parse tree per language layer,
 * each layer tagged with its nesting depth, its enclosing layer and the byte
 * range of the document it covers, plus the injection map from a byte range
 * of an enclosing tree to the layer parsed from it.
 */
module Layers {
  import opened Wrappers

  type LayerId = nat
  type NodeId = nat

  /** A half-open byte range `start..end` (Rust's `Range<usize>`). */
  datatype ByteRange = ByteRange(start: nat, end: nat)

  /** `outer` covers every byte of `inner`. */
  predicate Contains(outer: ByteRange, inner: ByteRange) {
    outer.start <= inner.start && inner.end <= outer.end
  }

  /**
   * One syntax node as tree-sitter exposes it: its byte range and the
   * indices (within the same tree) of its parent, its children in order and
   * its next and previous siblings.
   */
  datatype Node = Node(
    range: ByteRange,
    parent: Option<NodeId>,
    children: seq<NodeId>,
    next: Option<NodeId>,
    prev: Option<NodeId>)

  /**
   * A parse tree as an immutable array of nodes. Node 0 is the root node and
   * a parent's index is below its children's (pre-order numbering is one
   * such numbering).
   */
  datatype Tree = Tree(nodes: seq<Node>) {

    /** The links of node `i` point at nodes of this tree and agree with each other. */
    ghost predicate LinksOk(i: nat)
      requires i < |nodes|
    {
      var n := nodes[i];
      && n.range.start <= n.range.end
      && (i == 0 <==> n.parent.None?)
      && (n.parent.Some? ==> n.parent.value < i)
      && (i == 0 ==> n.next.None? && n.prev.None?)
      && (forall k | 0 <= k < |n.children| ::
            n.children[k] < |nodes| && nodes[n.children[k]].parent == Some(i))
      && (n.next.Some? ==>
            n.next.value < |nodes| && nodes[n.next.value].prev == Some(i)
            && nodes[n.next.value].parent == n.parent)
      && (n.prev.Some? ==>
            n.prev.value < |nodes| && nodes[n.prev.value].next == Some(i)
            && nodes[n.prev.value].parent == n.parent)
    }

    ghost predicate Valid() {
      && |nodes| > 0
      && forall i | 0 <= i < |nodes| :: LinksOk(i)
    }

    /** Every node lies inside its parent's byte range (tree-sitter's nesting). */
    ghost predicate Nested()
      requires Valid()
    {
      forall i | 0 < i < |nodes| && LinksOk(i) ::
        Contains(nodes[nodes[i].parent.value].range, nodes[i].range)
    }

    function RootRange(): ByteRange
      requires |nodes| > 0
    {
      nodes[0].range
    }
  }

  /** A language layer: `LanguageLayer` reduced to what the cursor reads. */
  datatype Layer = Layer(depth: nat, parent: Option<LayerId>, tree: Tree, coverage: ByteRange) {

    /** `LanguageLayer::contains_byte_range`. */
    predicate ContainsByteRange(start: nat, end: nat) {
      coverage.start <= start && end <= coverage.end
    }
  }

  /**
   * Everything a `TreeCursor` is built from: the layer store with its
   * iteration order, the root layer's id, the injection map, and tree-sitter's
   * `descendant_for_byte_range` for each layer's tree (an oracle whose only
   * known property is stated in `Valid`).
   */
  datatype Forest = Forest(
    layers: map<LayerId, Layer>,
    order: seq<LayerId>,
    root: LayerId,
    injections: map<ByteRange, LayerId>,
    descendant: (LayerId, ByteRange) -> Option<NodeId>)
  {
    /** What the layer scan of `reset_to_byte_range` reads: the root and every visited id are layers of the store. */
    ghost predicate ScanOk() {
      && root in layers
      && (forall k | 0 <= k < |order| :: order[k] in layers)
    }

    /** The iteration order of the store visits every one of its layers. */
    ghost predicate OrderComplete() {
      forall l | l in layers :: l in order
    }

    /** Layer `l` has an enclosing layer in the store that is less deep. */
    ghost predicate ParentOk(l: LayerId)
      requires l in layers
    {
      && layers[l].parent.Some?
      && layers[l].parent.value in layers
      && layers[layers[l].parent.value].depth < layers[l].depth
    }

    /** Every non-root layer has an enclosing layer, so ascending out of layers ends at the root. */
    ghost predicate ParentsOk() {
      forall l | l in layers && l != root :: ParentOk(l)
    }

    /** A descendant found by the oracle is a node of that tree covering the range. */
    ghost predicate DescendantOk() {
      forall l, r | l in layers && descendant(l, r).Some? ::
        && descendant(l, r).value < |layers[l].tree.nodes|
        && Contains(layers[l].tree.nodes[descendant(l, r).value].range, r)
    }

    /**
     * No cursor operation panics: every id it looks up is in the store, node
     * links resolve and non-root layers have a parent. Two further facts are
     * assumed: an enclosing layer is less deep (how `syntax.rs` builds
     * layers), and the oracle's nodes cover the range (tree-sitter).
     */
    ghost predicate Valid() {
      && ScanOk()
      && (forall l | l in layers :: layers[l].tree.Valid())
      && OrderComplete()
      && ParentsOk()
      && (forall r | r in injections :: injections[r] in layers)
      && DescendantOk()
    }

    /**
     * The geometric facts of a well-formed forest. Trees nest (tree-sitter's
     * guarantee). The rest are assumptions about how the layers and the
     * injection map are built: an injected layer's root node lies inside the
     * root of the layer enclosing it, and an injection key contains the root
     * node of the layer it names. Nothing relates a root node to its layer's
     * coverage: a root starts after leading whitespace, which belongs to no node.
     */
    ghost predicate Nested()
      requires Valid()
    {
      && (forall l | l in layers :: layers[l].tree.Nested())
      && (forall l | l in layers && l != root ::
            Contains(layers[layers[l].parent.value].tree.RootRange(), layers[l].tree.RootRange()))
      && (forall k | k in injections :: InjectionOk(k))
    }

    /** The injection keyed by `k` contains the root node of the layer it names. */
    ghost predicate InjectionOk(k: ByteRange)
      requires Valid() && k in injections
    {
      Contains(k, layers[injections[k]].tree.RootRange())
    }
  }
}
