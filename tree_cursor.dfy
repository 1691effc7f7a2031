/**
 * The cross-layer syntax cursor: a position (current layer, current node)
 * over a forest of per-language trees, moved so that the forest reads as
 * one tree. The pure step functions below say what each move does; the
 * class `Cursor` holds the two mutable fields and is proved to follow them.
 */
module TreeCursor {
  import opened Wrappers
  import opened Layers

  /** A cursor position: a layer and a node of that layer's tree. */
  datatype Pos = Pos(layer: LayerId, node: NodeId)

  /** The outcome of one move: where the cursor is now and whether it moved. */
  datatype Step = Step(pos: Pos, moved: bool)

  ghost predicate ValidPos(f: Forest, p: Pos) {
    p.layer in f.layers && p.node < |f.layers[p.layer].tree.nodes|
  }

  function NodeAt(f: Forest, p: Pos): Node
    requires ValidPos(f, p)
  {
    f.layers[p.layer].tree.nodes[p.node]
  }

  /** The byte range of the node at `p`; tree-sitter never reverses one. */
  function RangeOf(f: Forest, p: Pos): (r: ByteRange)
    requires f.Valid() && ValidPos(f, p)
    ensures r.start <= r.end
  {
    assert f.layers[p.layer].tree.LinksOk(p.node);
    NodeAt(f, p).range
  }

  /** The depth of the position's layer, the outer part of the ascent measure. */
  function DepthOf(f: Forest, p: Pos): nat
    requires ValidPos(f, p)
  {
    f.layers[p.layer].depth
  }

  /** `descendant_for_byte_range(..).unwrap_or(root)` on layer `l`'s tree. */
  function DescendantOrRoot(f: Forest, l: LayerId, r: ByteRange): (n: NodeId)
    requires f.Valid() && l in f.layers
    ensures n < |f.layers[l].tree.nodes|
    ensures n != 0 ==> Contains(f.layers[l].tree.nodes[n].range, r)
  {
    match f.descendant(l, r)
    case Some(d) => d
    case None => 0
  }

  /** `goto_parent`: the in-tree parent, else the enclosing layer's node for this node's range. */
  function ParentStep(f: Forest, p: Pos): (s: Step)
    requires f.Valid() && ValidPos(f, p)
    ensures ValidPos(f, s.pos)
    ensures !s.moved ==> s.pos == p
    ensures s.moved ==>
      DepthOf(f, s.pos) < DepthOf(f, p) || (s.pos.layer == p.layer && s.pos.node < p.node)
  {
    var n := NodeAt(f, p);
    assert f.layers[p.layer].tree.LinksOk(p.node);
    if n.parent.Some? then
      Step(Pos(p.layer, n.parent.value), true)
    else if p.layer == f.root then
      Step(p, false)
    else
      var up := f.layers[p.layer].parent.value;
      Step(Pos(up, DescendantOrRoot(f, up, n.range)), true)
  }

  /** `goto_first_child`: into the injected layer keyed by this node's range, else child 0. */
  function FirstChildStep(f: Forest, p: Pos): (s: Step)
    requires f.Valid() && ValidPos(f, p)
    ensures ValidPos(f, s.pos)
    ensures !s.moved ==> s.pos == p
  {
    var n := NodeAt(f, p);
    assert f.layers[p.layer].tree.LinksOk(p.node);
    if n.range in f.injections then
      Step(Pos(f.injections[n.range], 0), true)
    else if |n.children| > 0 then
      Step(Pos(p.layer, n.children[0]), true)
    else
      Step(p, false)
  }

  /** `goto_next_sibling`: the next sibling in the same tree, never another layer. */
  function NextSiblingStep(f: Forest, p: Pos): (s: Step)
    requires f.Valid() && ValidPos(f, p)
    ensures ValidPos(f, s.pos) && s.pos.layer == p.layer
    ensures !s.moved ==> s.pos == p
  {
    var n := NodeAt(f, p);
    assert f.layers[p.layer].tree.LinksOk(p.node);
    if n.next.Some? then Step(Pos(p.layer, n.next.value), true) else Step(p, false)
  }

  /** `goto_prev_sibling`: the previous sibling in the same tree, never another layer. */
  function PrevSiblingStep(f: Forest, p: Pos): (s: Step)
    requires f.Valid() && ValidPos(f, p)
    ensures ValidPos(f, s.pos) && s.pos.layer == p.layer
    ensures !s.moved ==> s.pos == p
  {
    var n := NodeAt(f, p);
    assert f.layers[p.layer].tree.LinksOk(p.node);
    if n.prev.Some? then Step(Pos(p.layer, n.prev.value), true) else Step(p, false)
  }

  /**
   * The layer `reset_to_byte_range` has chosen after visiting the first `k`
   * layers of the store's iteration order: a layer replaces the current
   * choice only when it is strictly deeper and contains the range.
   */
  function Container(f: Forest, start: nat, end: nat, k: nat): (c: LayerId)
    requires f.ScanOk() && k <= |f.order|
    ensures c in f.layers
  {
    if k == 0 then f.root
    else
      var c := Container(f, start, end, k - 1);
      var l := f.order[k - 1];
      if f.layers[l].depth > f.layers[c].depth && f.layers[l].ContainsByteRange(start, end)
      then l else c
  }

  /** Where `reset_to_byte_range(start, end)` puts the cursor, whatever it was on before. */
  function ResetTarget(f: Forest, start: nat, end: nat): (p: Pos)
    requires f.Valid()
    ensures ValidPos(f, p)
  {
    var l := Container(f, start, end, |f.order|);
    Pos(l, DescendantOrRoot(f, l, ByteRange(start, end)))
  }

  // ---------------------------------------------------------------------
  // Properties of the moves

  /** With an in-tree parent, `goto_parent` moves to it in the same layer. */
  lemma ParentInTree(f: Forest, p: Pos)
    requires f.Valid() && ValidPos(f, p) && NodeAt(f, p).parent.Some?
    ensures ParentStep(f, p) == Step(Pos(p.layer, NodeAt(f, p).parent.value), true)
  {
  }

  /** On the root layer with no in-tree parent, `goto_parent` fails and stays put. */
  lemma ParentAtTop(f: Forest, p: Pos)
    requires f.Valid() && ValidPos(f, p) && NodeAt(f, p).parent.None? && p.layer == f.root
    ensures ParentStep(f, p) == Step(p, false)
  {
  }

  /**
   * From the root of an injected layer, `goto_parent` moves to the enclosing
   * layer, onto its descendant for the old node's byte range (or its root),
   * and reports success.
   */
  lemma ParentCrossesLayer(f: Forest, p: Pos)
    requires f.Valid() && ValidPos(f, p) && NodeAt(f, p).parent.None? && p.layer != f.root
    ensures var s := ParentStep(f, p);
      && s.moved
      && s.pos.layer == f.layers[p.layer].parent.value
      && s.pos.node == (match f.descendant(s.pos.layer, RangeOf(f, p))
                        case Some(d) => d
                        case None => 0)
  {
  }

  /** The in-tree parent always covers its child (by induction on pre-order), so the root covers every node. */
  lemma {:induction false} RootCoversNode(t: Tree, i: nat)
    requires t.Valid() && t.Nested() && i < |t.nodes|
    ensures Contains(t.RootRange(), t.nodes[i].range)
    decreases i
  {
    if i > 0 {
      assert t.LinksOk(i);
      var q := t.nodes[i].parent.value;
      RootCoversNode(t, q);
    }
  }

  /**
   * In a nested forest every successful `goto_parent` lands on a node whose
   * byte range covers the one it left, also when it climbs out of an
   * injected layer.
   */
  lemma ParentCovers(f: Forest, p: Pos)
    requires f.Valid() && f.Nested() && ValidPos(f, p)
    ensures Contains(RangeOf(f, ParentStep(f, p).pos), RangeOf(f, p))
  {
    // A node without an in-tree parent is its tree's root, which `Nested`
    // places inside the enclosing layer's root, the fallback of the lookup.
    assert f.layers[p.layer].tree.LinksOk(p.node);
    if NodeAt(f, p).parent.None? && p.layer != f.root {
      assert p.node == 0;
    }
  }

  /**
   * `goto_first_child` prefers the injection map: an exact key enters that
   * layer's root, otherwise child 0 of the same tree, otherwise nothing.
   */
  lemma FirstChildCases(f: Forest, p: Pos)
    requires f.Valid() && ValidPos(f, p)
    ensures var s := FirstChildStep(f, p); var n := NodeAt(f, p);
      && (n.range in f.injections ==> s == Step(Pos(f.injections[n.range], 0), true))
      && (n.range !in f.injections && |n.children| > 0 ==> s == Step(Pos(p.layer, n.children[0]), true))
      && (n.range !in f.injections && |n.children| == 0 ==> s == Step(p, false))
  {
  }

  /**
   * The injection lookup is global and exact: on the root of an injected
   * layer whose range is itself its key, `goto_first_child` re-enters that
   * same root and still reports success, so it never reaches the root's children.
   */
  lemma FirstChildReentersInjectedRoot(f: Forest, l: LayerId)
    requires f.Valid() && l in f.layers
    requires f.layers[l].tree.RootRange() in f.injections
    requires f.injections[f.layers[l].tree.RootRange()] == l
    ensures FirstChildStep(f, Pos(l, 0)) == Step(Pos(l, 0), true)
  {
  }

  /** Descending into the first child of the same tree is undone by `goto_parent`. */
  lemma FirstChildThenParent(f: Forest, p: Pos)
    requires f.Valid() && ValidPos(f, p)
    requires NodeAt(f, p).range !in f.injections && |NodeAt(f, p).children| > 0
    ensures ParentStep(f, FirstChildStep(f, p).pos) == Step(p, true)
  {
    var t := f.layers[p.layer].tree;
    assert t.LinksOk(p.node);
    assert t.LinksOk(NodeAt(f, p).children[0]);
  }

  /**
   * In a nested forest `goto_first_child` never widens: the node it reaches,
   * the first child or the root of the injected layer, lies inside the node
   * it left.
   */
  lemma FirstChildNarrows(f: Forest, p: Pos)
    requires f.Valid() && f.Nested() && ValidPos(f, p)
    ensures Contains(RangeOf(f, p), RangeOf(f, FirstChildStep(f, p).pos))
  {
    var n := NodeAt(f, p);
    var t := f.layers[p.layer].tree;
    assert t.LinksOk(p.node);
    if n.range in f.injections {
      assert f.InjectionOk(n.range);
    } else if |n.children| > 0 {
      var c := n.children[0];
      assert t.LinksOk(c);
      assert t.Nested();
    }
  }

  /** A successful next-sibling move is undone by a previous-sibling move, and vice versa. */
  lemma SiblingRoundTrip(f: Forest, p: Pos)
    requires f.Valid() && ValidPos(f, p)
    ensures NextSiblingStep(f, p).moved ==> PrevSiblingStep(f, NextSiblingStep(f, p).pos) == Step(p, true)
    ensures PrevSiblingStep(f, p).moved ==> NextSiblingStep(f, PrevSiblingStep(f, p).pos) == Step(p, true)
  {
    var t := f.layers[p.layer].tree;
    assert t.LinksOk(p.node);
  }

  /** One scan step never picks a shallower layer, and it ends at least as deep as the visited layer when that contains the range. */
  lemma ContainerStep(f: Forest, start: nat, end: nat, k: nat)
    requires f.ScanOk() && 0 < k <= |f.order|
    ensures var before := Container(f, start, end, k - 1); var c := Container(f, start, end, k);
      && f.layers[before].depth <= f.layers[c].depth
      && (c == before || f.layers[c].ContainsByteRange(start, end))
      && (f.layers[f.order[k - 1]].ContainsByteRange(start, end) ==>
            f.layers[f.order[k - 1]].depth <= f.layers[c].depth)
  {
  }

  /** After visiting `k` layers the chosen one is the root or contains the range, and is at least as deep as the root. */
  lemma {:induction false} ContainerIsRootOrContains(f: Forest, start: nat, end: nat, k: nat)
    requires f.ScanOk() && k <= |f.order|
    ensures var c := Container(f, start, end, k);
      && (c == f.root || f.layers[c].ContainsByteRange(start, end))
      && f.layers[f.root].depth <= f.layers[c].depth
  {
    if k > 0 {
      ContainerIsRootOrContains(f, start, end, k - 1);
      ContainerStep(f, start, end, k);
    }
  }

  /** After visiting `k` layers the chosen one is at least as deep as every visited layer that contains the range. */
  lemma {:induction false} ContainerIsDeepest(f: Forest, start: nat, end: nat, k: nat)
    requires f.ScanOk() && k <= |f.order|
    ensures forall j | 0 <= j < k && f.layers[f.order[j]].ContainsByteRange(start, end) ::
      f.layers[f.order[j]].depth <= f.layers[Container(f, start, end, k)].depth
  {
    if k > 0 {
      ContainerIsDeepest(f, start, end, k - 1);
      ContainerStep(f, start, end, k);
    }
  }

  /**
   * `reset_to_byte_range` picks the root layer or a layer containing the
   * range, and no layer containing the range is deeper; the node is the
   * layer's descendant for the range or its root.
   */
  lemma ResetPicksDeepestLayer(f: Forest, start: nat, end: nat)
    requires f.Valid()
    ensures var p := ResetTarget(f, start, end);
      && (p.layer == f.root || f.layers[p.layer].ContainsByteRange(start, end))
      && (forall l | l in f.layers && f.layers[l].ContainsByteRange(start, end) ::
            f.layers[l].depth <= f.layers[p.layer].depth)
      && (p.node == 0 || Contains(RangeOf(f, p), ByteRange(start, end)))
  {
    var p := ResetTarget(f, start, end);
    ContainerIsRootOrContains(f, start, end, |f.order|);
    ContainerIsDeepest(f, start, end, |f.order|);
    forall l | l in f.layers && f.layers[l].ContainsByteRange(start, end)
      ensures f.layers[l].depth <= f.layers[p.layer].depth
    {
      var j :| 0 <= j < |f.order| && f.order[j] == l;
    }
  }

  /**
   * In a nested forest the node `reset_to_byte_range` picks covers the range,
   * provided the root node of the chosen layer's tree covers it.
   */
  lemma ResetCovers(f: Forest, start: nat, end: nat)
    requires f.Valid() && f.Nested()
    requires Contains(f.layers[ResetTarget(f, start, end).layer].tree.RootRange(), ByteRange(start, end))
    ensures Contains(RangeOf(f, ResetTarget(f, start, end)), ByteRange(start, end))
  {
    ResetPicksDeepestLayer(f, start, end);
  }

  // ---------------------------------------------------------------------
  // The cursor object

  /** `TreeCursor`: the forest it borrows and the two fields its moves update. */
  class Cursor {
    const forest: Forest
    var current: LayerId
    var cursor: NodeId

    ghost predicate Valid()
      reads this
    {
      forest.Valid() && ValidPos(forest, Pos(current, cursor))
    }

    function Position(): Pos
      reads this
    {
      Pos(current, cursor)
    }

    /** `TreeCursor::new`: on the root layer, at its tree's root node. */
    constructor (forest: Forest)
      requires forest.Valid()
      ensures Valid() && this.forest == forest
      ensures current == forest.root && cursor == 0
    {
      this.forest := forest;
      current := forest.root;
      cursor := 0;
    }

    /** `node`: the current node, whose byte range is never reversed. */
    function CurrentNode(): (n: Node)
      reads this
      requires Valid()
      ensures n.range.start <= n.range.end
    {
      assert forest.layers[current].tree.LinksOk(cursor);
      NodeAt(forest, Position())
    }

    method GotoParent() returns (moved: bool)
      requires Valid()
      modifies this
      ensures Valid()
      ensures Step(Position(), moved) == ParentStep(forest, old(Position()))
    {
      var n := CurrentNode();
      assert forest.layers[current].tree.LinksOk(cursor);
      if n.parent.Some? {
        cursor := n.parent.value;
        return true;
      }
      // Already on the root layer: there is nowhere to ascend to.
      if current == forest.root {
        return false;
      }
      var range := n.range;
      current := forest.layers[current].parent.value;
      cursor := DescendantOrRoot(forest, current, range);
      return true;
    }

    method GotoFirstChild() returns (moved: bool)
      requires Valid()
      modifies this
      ensures Valid()
      ensures Step(Position(), moved) == FirstChildStep(forest, old(Position()))
    {
      var n := CurrentNode();
      assert forest.layers[current].tree.LinksOk(cursor);
      if n.range in forest.injections {
        current := forest.injections[n.range];
        cursor := 0;
        moved := true;
      } else if |n.children| > 0 {
        cursor := n.children[0];
        moved := true;
      } else {
        moved := false;
      }
    }

    method GotoNextSibling() returns (moved: bool)
      requires Valid()
      modifies this
      ensures Valid() && current == old(current)
      ensures Step(Position(), moved) == NextSiblingStep(forest, old(Position()))
    {
      var n := CurrentNode();
      assert forest.layers[current].tree.LinksOk(cursor);
      if n.next.Some? {
        cursor := n.next.value;
        moved := true;
      } else {
        moved := false;
      }
    }

    method GotoPrevSibling() returns (moved: bool)
      requires Valid()
      modifies this
      ensures Valid() && current == old(current)
      ensures Step(Position(), moved) == PrevSiblingStep(forest, old(Position()))
    {
      var n := CurrentNode();
      assert forest.layers[current].tree.LinksOk(cursor);
      if n.prev.Some? {
        cursor := n.prev.value;
        moved := true;
      } else {
        moved := false;
      }
    }

    method ResetToByteRange(start: nat, end: nat)
      requires forest.Valid()
      modifies this
      ensures Valid()
      ensures Position() == ResetTarget(forest, start, end)
    {
      var containerId := forest.root;
      for k := 0 to |forest.order|
        invariant containerId == Container(forest, start, end, k)
      {
        var layerId := forest.order[k];
        var layer := forest.layers[layerId];
        if layer.depth > forest.layers[containerId].depth && layer.ContainsByteRange(start, end) {
          containerId := layerId;
        }
      }
      current := containerId;
      cursor := DescendantOrRoot(forest, current, ByteRange(start, end));
    }
  }

  /** A reset does not read the position it starts from: resetting twice is resetting once. */
  method ResetTwice(c: Cursor, start: nat, end: nat)
    requires c.forest.Valid()
    modifies c
    ensures c.Valid() && c.Position() == ResetTarget(c.forest, start, end)
  {
    c.ResetToByteRange(start, end);
    ghost var once := c.Position();
    c.ResetToByteRange(start, end);
    assert c.Position() == once;
  }
}
