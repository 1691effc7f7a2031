/**
 * Structural selection: expand, shrink and the two sibling steps. Each maps
 * every range of a selection on its own: char offsets to bytes, reset the
 * cursor to that byte range, move, and turn the final node's byte range back
 * into a char range that keeps the original range's direction.
 */
module Object {
  import opened Wrappers
  import opened Layers
  import opened TreeCursor

  datatype Direction = Forward | Backward

  /** A selection range over char offsets: the anchor stays, the head moves. */
  datatype Range = Range(anchor: nat, head: nat) {
    /** `Range::from`: the smaller end. */
    function From(): (n: nat)
      ensures n <= anchor && n <= head && (n == anchor || n == head)
    {
      if anchor <= head then anchor else head
    }

    /** `Range::to`: the larger end. */
    function To(): (n: nat)
      ensures anchor <= n && head <= n && (n == anchor || n == head)
    {
      if anchor <= head then head else anchor
    }

    /** `Range::direction`: backward exactly when the head is before the anchor. */
    function Direction(): (d: Direction)
      ensures d == Backward <==> head < anchor
    {
      if head < anchor then Backward else Forward
    }

    function Flip(): Range { Range(head, anchor) }

    /**
     * `Range::with_direction`: the same span, pointing the way `d` says
     * (an empty range can only point forward).
     */
    function WithDirection(d: Direction): (r: Range)
      ensures r.From() == From() && r.To() == To()
      ensures r.Direction() == d || r.anchor == r.head
    {
      if Direction() == d then this else Flip()
    }
  }

  ghost predicate Monotone(g: nat -> nat) {
    forall a: nat, b: nat :: a <= b ==> g(a) <= g(b)
  }

  /** The text's char/byte offset conversions, both total and monotone. */
  datatype Text = Text(charToByte: nat -> nat, byteToChar: nat -> nat) {
    ghost predicate Valid() {
      Monotone(charToByte) && Monotone(byteToChar)
    }
  }

  /** The byte range `char_to_byte(from)..char_to_byte(to)` of a char range. */
  function ByteSpan(text: Text, r: Range): (b: ByteRange)
    requires text.Valid()
    ensures b.start <= b.end
  {
    ByteRange(text.charToByte(r.From()), text.charToByte(r.To()))
  }

  /**
   * `Range::new(to, from).with_direction(dir)` for a node's byte range: the
   * result spans the converted node bounds and points the way `dir` says
   * (an empty range has only the forward direction).
   */
  function SpanToRange(text: Text, span: ByteRange, dir: Direction): (r: Range)
    requires text.Valid() && span.start <= span.end
    ensures r.From() == text.byteToChar(span.start) && r.To() == text.byteToChar(span.end)
    ensures r.Direction() == dir || r.anchor == r.head
  {
    Range(text.byteToChar(span.end), text.byteToChar(span.start)).WithDirection(dir)
  }

  /**
   * The loop of `expand_selection`: while the node's range equals the
   * tracked range, ascend; stop at the first node whose range differs or
   * when `goto_parent` fails.
   */
  function Climb(f: Forest, p: Pos, tracked: ByteRange): (q: Pos)
    requires f.Valid() && ValidPos(f, p)
    ensures ValidPos(f, q)
    decreases DepthOf(f, p), p.node
  {
    if RangeOf(f, p) != tracked then p
    else
      var s := ParentStep(f, p);
      if !s.moved then p else Climb(f, s.pos, RangeOf(f, p))
  }

  /** The node `expand_selection` ends on for one range. */
  function ExpandNode(f: Forest, text: Text, r: Range): (p: Pos)
    requires f.Valid() && text.Valid()
    ensures ValidPos(f, p)
  {
    var b := ByteSpan(text, r);
    Climb(f, ResetTarget(f, b.start, b.end), b)
  }

  /** What `expand_selection` makes of one range. */
  function ExpandRange(f: Forest, text: Text, r: Range): (out: Range)
    requires f.Valid() && text.Valid()
    ensures var span := RangeOf(f, ExpandNode(f, text, r));
      out.From() == text.byteToChar(span.start) && out.To() == text.byteToChar(span.end)
    ensures out.Direction() == r.Direction() || out.anchor == out.head
  {
    SpanToRange(text, RangeOf(f, ExpandNode(f, text, r)), r.Direction())
  }

  /** The motions `select_node_impl` is given, as a closed set. */
  datatype Motion = FirstChild | NextSibling | PrevSibling

  /**
   * Where a motion leaves the cursor. The sibling motions fall back once: on
   * failure they ascend and retry the same sibling move from the parent.
   */
  function MotionTarget(f: Forest, m: Motion, p: Pos): (q: Pos)
    requires f.Valid() && ValidPos(f, p)
    ensures ValidPos(f, q)
  {
    match m
    case FirstChild => FirstChildStep(f, p).pos
    case NextSibling =>
      var s := NextSiblingStep(f, p);
      if s.moved then s.pos
      else
        var u := ParentStep(f, p);
        if u.moved then NextSiblingStep(f, u.pos).pos else p
    case PrevSibling =>
      var s := PrevSiblingStep(f, p);
      if s.moved then s.pos
      else
        var u := ParentStep(f, p);
        if u.moved then PrevSiblingStep(f, u.pos).pos else p
  }

  /** The node `select_node_impl` ends on for one range. */
  function MotionNode(f: Forest, text: Text, m: Motion, r: Range): (p: Pos)
    requires f.Valid() && text.Valid()
    ensures ValidPos(f, p)
  {
    var b := ByteSpan(text, r);
    MotionTarget(f, m, ResetTarget(f, b.start, b.end))
  }

  /** What `select_node_impl` makes of one range. */
  function MotionRange(f: Forest, text: Text, m: Motion, r: Range): (out: Range)
    requires f.Valid() && text.Valid()
    ensures var span := RangeOf(f, MotionNode(f, text, m, r));
      out.From() == text.byteToChar(span.start) && out.To() == text.byteToChar(span.end)
    ensures out.Direction() == r.Direction() || out.anchor == out.head
  {
    SpanToRange(text, RangeOf(f, MotionNode(f, text, m, r)), r.Direction())
  }

  // ---------------------------------------------------------------------
  // Properties

  /** The climb stops on a node whose range differs from the tracked one, or where `goto_parent` fails. */
  lemma {:induction false} ClimbStops(f: Forest, p: Pos, tracked: ByteRange)
    requires f.Valid() && ValidPos(f, p)
    ensures var q := Climb(f, p, tracked);
      RangeOf(f, q) != tracked || !ParentStep(f, q).moved
    decreases DepthOf(f, p), p.node
  {
    if RangeOf(f, p) == tracked {
      var s := ParentStep(f, p);
      if s.moved {
        ClimbStops(f, s.pos, RangeOf(f, p));
      }
    }
  }

  /** In a nested forest the climb only widens: a node covering the tracked range ends on one that does. */
  lemma {:induction false} ClimbCovers(f: Forest, p: Pos, tracked: ByteRange)
    requires f.Valid() && f.Nested() && ValidPos(f, p)
    requires Contains(RangeOf(f, p), tracked)
    ensures Contains(RangeOf(f, Climb(f, p, tracked)), tracked)
    decreases DepthOf(f, p), p.node
  {
    if RangeOf(f, p) == tracked {
      var s := ParentStep(f, p);
      if s.moved {
        ParentCovers(f, p);
        ClimbCovers(f, s.pos, RangeOf(f, p));
      }
    }
  }

  /**
   * `expand_selection` never shrinks: in a nested forest where the root node
   * of the layer the reset picks covers the selection's byte range, the
   * chosen node covers it; and the node's range differs from it unless
   * `goto_parent` failed there.
   */
  lemma ExpandCoversSelection(f: Forest, text: Text, r: Range)
    requires f.Valid() && f.Nested() && text.Valid()
    requires var b := ByteSpan(text, r);
      Contains(f.layers[ResetTarget(f, b.start, b.end).layer].tree.RootRange(), b)
    ensures Contains(RangeOf(f, ExpandNode(f, text, r)), ByteSpan(text, r))
    ensures RangeOf(f, ExpandNode(f, text, r)) != ByteSpan(text, r)
            || !ParentStep(f, ExpandNode(f, text, r)).moved
  {
    var b := ByteSpan(text, r);
    ResetCovers(f, b.start, b.end);
    ClimbCovers(f, ResetTarget(f, b.start, b.end), b);
    ClimbStops(f, ResetTarget(f, b.start, b.end), b);
  }

  /**
   * A document of 30 bytes with one injected layer whose included range is
   * 10..20 and whose root node, after two bytes of leading whitespace, is
   * 12..20.
   */
  function PaddedInjection(): (f: Forest)
    ensures f.Valid() && f.Nested()
  {
    var outer := Layer(0, None, Tree([Node(ByteRange(0, 30), None, [], None, None)]), ByteRange(0, 30));
    var inner := Layer(1, Some(0), Tree([Node(ByteRange(12, 20), None, [], None, None)]), ByteRange(10, 20));
    var f := Forest(map[0 := outer, 1 := inner], [0, 1], 0, map[ByteRange(12, 20) := 1], (l, r) => None);
    assert outer.tree.LinksOk(0) && outer.tree.Valid() && outer.tree.Nested();
    assert inner.tree.LinksOk(0) && inner.tree.Valid() && inner.tree.Nested();
    assert f.ScanOk() && f.OrderComplete();
    assert f.ParentOk(1) && f.ParentsOk();
    assert f.DescendantOk();
    assert f.Valid();
    assert f.InjectionOk(ByteRange(12, 20));
    f
  }

  /**
   * A selection in that whitespace is expanded to the injected root, which
   * does not contain it: the reset picks the injected layer, whose root is
   * the lookup's fallback.
   */
  lemma ExpandLeavesPaddedSelection()
    ensures var f := PaddedInjection(); var text := Text(x => x, x => x);
      && text.Valid()
      && RangeOf(f, ExpandNode(f, text, Range(10, 11))) == ByteRange(12, 20)
      && !Contains(RangeOf(f, ExpandNode(f, text, Range(10, 11))), ByteSpan(text, Range(10, 11)))
  {
  }

  /** `shrink_selection` takes exactly one `goto_first_child` step; a failed step keeps the reset node. */
  lemma ShrinkIsOneStep(f: Forest, text: Text, r: Range)
    requires f.Valid() && text.Valid()
    ensures var b := ByteSpan(text, r); var p := ResetTarget(f, b.start, b.end);
      && MotionNode(f, text, FirstChild, r) == FirstChildStep(f, p).pos
      && (!FirstChildStep(f, p).moved ==> MotionNode(f, text, FirstChild, r) == p)
  {
  }

  /**
   * In a nested forest `shrink_selection` never widens: the node it reaches
   * lies inside the node the reset found, and so does the resulting char range.
   */
  lemma ShrinkNarrows(f: Forest, text: Text, r: Range)
    requires f.Valid() && f.Nested() && text.Valid()
    ensures var b := ByteSpan(text, r); var p := ResetTarget(f, b.start, b.end);
      && Contains(RangeOf(f, p), RangeOf(f, MotionNode(f, text, FirstChild, r)))
      && text.byteToChar(RangeOf(f, p).start) <= MotionRange(f, text, FirstChild, r).From()
      && MotionRange(f, text, FirstChild, r).To() <= text.byteToChar(RangeOf(f, p).end)
  {
    var b := ByteSpan(text, r);
    var p := ResetTarget(f, b.start, b.end);
    FirstChildNarrows(f, p);
    var q := RangeOf(f, p);
    var c := RangeOf(f, MotionNode(f, text, FirstChild, r));
    assert text.byteToChar(q.start) <= text.byteToChar(c.start);
    assert text.byteToChar(c.end) <= text.byteToChar(q.end);
  }

  /**
   * The sibling fallback goes one level only: the sibling itself when there
   * is one; else nothing when `goto_parent` fails; else the parent's sibling,
   * or the parent itself when it has none.
   */
  lemma SiblingFallback(f: Forest, m: Motion, p: Pos)
    requires f.Valid() && ValidPos(f, p) && m != FirstChild
    ensures var s := if m == NextSibling then NextSiblingStep(f, p) else PrevSiblingStep(f, p);
      var u := ParentStep(f, p);
      var t := if m == NextSibling then NextSiblingStep(f, u.pos) else PrevSiblingStep(f, u.pos);
      && (s.moved ==> MotionTarget(f, m, p) == s.pos)
      && (!s.moved && !u.moved ==> MotionTarget(f, m, p) == p)
      && (!s.moved && u.moved && t.moved ==> MotionTarget(f, m, p) == t.pos)
      && (!s.moved && u.moved && !t.moved ==> MotionTarget(f, m, p) == u.pos)
  {
  }

  /** Within one layer, stepping to the next sibling and then to the previous one returns to the start. */
  lemma NextThenPrevSibling(f: Forest, p: Pos)
    requires f.Valid() && ValidPos(f, p) && NextSiblingStep(f, p).moved
    ensures MotionTarget(f, PrevSibling, MotionTarget(f, NextSibling, p)) == p
  {
    SiblingRoundTrip(f, p);
  }

  // ---------------------------------------------------------------------
  // The operations, over a shared cursor

  /** One iteration of `expand_selection`'s transform closure. */
  method ExpandOne(cursor: Cursor, text: Text, range: Range) returns (r: Range)
    requires cursor.forest.Valid() && text.Valid()
    modifies cursor
    ensures cursor.Valid()
    ensures r == ExpandRange(cursor.forest, text, range)
  {
    var from := text.charToByte(range.From());
    var to := text.charToByte(range.To());
    var byteRange := ByteRange(from, to);
    cursor.ResetToByteRange(from, to);
    ghost var start := cursor.Position();
    while true
      invariant cursor.Valid()
      invariant byteRange == ByteRange(from, to)
      invariant Climb(cursor.forest, cursor.Position(), byteRange) == Climb(cursor.forest, start, byteRange)
      decreases DepthOf(cursor.forest, cursor.Position()), cursor.cursor
    {
      if cursor.CurrentNode().range != byteRange {
        break;
      }
      byteRange := cursor.CurrentNode().range;
      var moved := cursor.GotoParent();
      if !moved {
        break;
      }
    }
    var node := cursor.CurrentNode();
    r := SpanToRange(text, node.range, range.Direction());
  }

  /** Appending the expansion of the next range extends a correctly expanded prefix by one. */
  lemma ExpandAppend(f: Forest, text: Text, selection: seq<Range>, out: seq<Range>, r: Range)
    requires f.Valid() && text.Valid() && |out| < |selection|
    requires forall j | 0 <= j < |out| :: out[j] == ExpandRange(f, text, selection[j])
    requires r == ExpandRange(f, text, selection[|out|])
    ensures forall j | 0 <= j < |out| + 1 :: (out + [r])[j] == ExpandRange(f, text, selection[j])
  {
  }

  /** `expand_selection`: every range widened to the nearest enclosing node with a different span. */
  method ExpandSelection(syntax: Forest, text: Text, selection: seq<Range>) returns (out: seq<Range>)
    requires syntax.Valid() && text.Valid()
    ensures |out| == |selection|
    ensures forall i | 0 <= i < |selection| :: out[i] == ExpandRange(syntax, text, selection[i])
  {
    var cursor := new Cursor(syntax);
    out := [];
    for i := 0 to |selection|
      invariant cursor.forest == syntax && cursor.Valid()
      invariant |out| == i
      invariant forall j | 0 <= j < i :: out[j] == ExpandRange(syntax, text, selection[j])
    {
      var r := ExpandOne(cursor, text, selection[i]);
      ExpandAppend(syntax, text, selection, out, r);
      out := out + [r];
    }
  }

  /** The closures `shrink_selection` and the sibling selections hand to `select_node_impl`. */
  method RunMotion(cursor: Cursor, m: Motion)
    requires cursor.Valid()
    modifies cursor
    ensures cursor.Valid()
    ensures cursor.Position() == MotionTarget(cursor.forest, m, old(cursor.Position()))
  {
    match m
    case FirstChild =>
      var _ := cursor.GotoFirstChild();
    case NextSibling =>
      var moved := cursor.GotoNextSibling();
      if !moved {
        moved := cursor.GotoParent();
        if moved {
          moved := cursor.GotoNextSibling();
        }
      }
    case PrevSibling =>
      var moved := cursor.GotoPrevSibling();
      if !moved {
        moved := cursor.GotoParent();
        if moved {
          moved := cursor.GotoPrevSibling();
        }
      }
  }

  /** One iteration of `select_node_impl`'s transform closure. */
  method SelectNodeOne(cursor: Cursor, text: Text, range: Range, m: Motion) returns (r: Range)
    requires cursor.forest.Valid() && text.Valid()
    modifies cursor
    ensures cursor.Valid()
    ensures r == MotionRange(cursor.forest, text, m, range)
  {
    var from := text.charToByte(range.From());
    var to := text.charToByte(range.To());
    cursor.ResetToByteRange(from, to);
    RunMotion(cursor, m);
    var node := cursor.CurrentNode();
    r := SpanToRange(text, node.range, range.Direction());
  }

  /** Appending the motion's result for the next range extends a correctly mapped prefix by one. */
  lemma MotionAppend(f: Forest, text: Text, m: Motion, selection: seq<Range>, out: seq<Range>, r: Range)
    requires f.Valid() && text.Valid() && |out| < |selection|
    requires forall j | 0 <= j < |out| :: out[j] == MotionRange(f, text, m, selection[j])
    requires r == MotionRange(f, text, m, selection[|out|])
    ensures forall j | 0 <= j < |out| + 1 :: (out + [r])[j] == MotionRange(f, text, m, selection[j])
  {
  }

  /** `select_node_impl`: every range replaced by the node the motion reaches from it. */
  method SelectNodeImpl(syntax: Forest, text: Text, selection: seq<Range>, m: Motion) returns (out: seq<Range>)
    requires syntax.Valid() && text.Valid()
    ensures |out| == |selection|
    ensures forall i | 0 <= i < |selection| :: out[i] == MotionRange(syntax, text, m, selection[i])
  {
    var cursor := new Cursor(syntax);
    out := [];
    for i := 0 to |selection|
      invariant cursor.forest == syntax && cursor.Valid()
      invariant |out| == i
      invariant forall j | 0 <= j < i :: out[j] == MotionRange(syntax, text, m, selection[j])
    {
      var r := SelectNodeOne(cursor, text, selection[i], m);
      MotionAppend(syntax, text, m, selection, out, r);
      out := out + [r];
    }
  }

  /** `shrink_selection`: every range narrowed by one `goto_first_child`. */
  method ShrinkSelection(syntax: Forest, text: Text, selection: seq<Range>) returns (out: seq<Range>)
    requires syntax.Valid() && text.Valid()
    ensures |out| == |selection|
    ensures forall i | 0 <= i < |selection| :: out[i] == MotionRange(syntax, text, FirstChild, selection[i])
  {
    out := SelectNodeImpl(syntax, text, selection, FirstChild);
  }

  /** `select_next_sibling`: every range moved to the next sibling node, with the one-level fallback. */
  method SelectNextSibling(syntax: Forest, text: Text, selection: seq<Range>) returns (out: seq<Range>)
    requires syntax.Valid() && text.Valid()
    ensures |out| == |selection|
    ensures forall i | 0 <= i < |selection| :: out[i] == MotionRange(syntax, text, NextSibling, selection[i])
  {
    out := SelectNodeImpl(syntax, text, selection, NextSibling);
  }

  /** `select_prev_sibling`: every range moved to the previous sibling node, with the one-level fallback. */
  method SelectPrevSibling(syntax: Forest, text: Text, selection: seq<Range>) returns (out: seq<Range>)
    requires syntax.Valid() && text.Valid()
    ensures |out| == |selection|
    ensures forall i | 0 <= i < |selection| :: out[i] == MotionRange(syntax, text, PrevSibling, selection[i])
  {
    out := SelectNodeImpl(syntax, text, selection, PrevSibling);
  }
}
