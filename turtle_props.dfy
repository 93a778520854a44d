/**
 * Properties of the dendrogram layout of tree_turtle.py: children get
 * consecutive bands that stay inside their parent's band, and a node sits
 * at the floor-midpoint of its first and last child. The one exception is a
 * node with a single child, which the source places outside its band;
 * `Layout(..., false)` is the layout it evidently intends, and the two agree
 * on every tree without such a node.
 */
module TurtleProperties {
  import opened TreeModel
  import opened Turtle

  // ---------------------------------------------------------------------
  // Consecutive bands
  // ---------------------------------------------------------------------

  /** Where the k-th child's band begins: miny plus the heights of the bands before it. */
  function Edge(ts: seq<Tree>, k: nat, miny: int, height: int, nd: nat): int
    requires k <= |ts| && nd > 0
  {
    if k == 0 then miny else Edge(ts, k - 1, miny, height, nd) + Share(NTips(ts[k - 1]), nd, height)
  }

  /** The y of the j-th child, drawn in its band. */
  function ChildY(ts: seq<Tree>, j: nat, x0: int, miny: int, height: int, nd: nat, style: Style, asWritten: bool): int
    requires j < |ts| && nd > 0
  {
    Layout(ts[j], x0, Edge(ts, j, miny, height, nd), Edge(ts, j + 1, miny, height, nd), style, asWritten).y
  }

  /**
   * The loop over the children draws child k in the band from Edge(k) to
   * Edge(k + 1), ends at the last edge, and records the first child's y and
   * the last child's, except that, as written, a lone child is never
   * recorded as the last.
   */
  lemma {:induction false} SweepFrom(ts: seq<Tree>, k: nat, x0: int, miny: int, height: int, nd: nat,
                                     style: Style, asWritten: bool, st: Sweeping)
    requires k <= |ts| && nd > 0
    requires st.topy == Edge(ts, k, miny, height, nd)
    ensures Sweep(ts, k, x0, height, nd, style, asWritten, st).topy == Edge(ts, |ts|, miny, height, nd)
    ensures 0 < k ==> Sweep(ts, k, x0, height, nd, style, asWritten, st).bottom == st.bottom
    ensures k == 0 < |ts| ==>
      Sweep(ts, k, x0, height, nd, style, asWritten, st).bottom == ChildY(ts, 0, x0, miny, height, nd, style, asWritten)
    ensures k < |ts| ==>
      Sweep(ts, k, x0, height, nd, style, asWritten, st).top
        == if |ts| == 1 && asWritten then st.top else ChildY(ts, |ts| - 1, x0, miny, height, nd, style, asWritten)
    decreases |ts| - k
  {
    if k < |ts| {
      var bottomy := st.topy + Share(NTips(ts[k]), nd, height);
      var d := Layout(ts[k], x0, st.topy, bottomy, style, asWritten);
      assert d.y == ChildY(ts, k, x0, miny, height, nd, style, asWritten);
      var bottom := if k == 0 then d.y else st.bottom;
      var top := if k == |ts| - 1 && (k != 0 || !asWritten) then d.y else st.top;
      SweepFrom(ts, k + 1, x0, miny, height, nd, style, asWritten, Sweeping(bottomy, bottom, top, st.marks + d.marks));
    }
  }

  /** An internal node is drawn at the floor-midpoint of its first and last child. */
  lemma NodeY(t: Tree, minx: int, miny: int, maxy: int, style: Style, asWritten: bool)
    requires |t.children| > 0
    ensures var x0 := minx + Offset(t.branchLength, style.scale);
            var first := ChildY(t.children, 0, x0, miny, maxy - miny, NTips(t), style, asWritten);
            var last := if |t.children| == 1 && asWritten then 0
                        else ChildY(t.children, |t.children| - 1, x0, miny, maxy - miny, NTips(t), style, asWritten);
            Layout(t, minx, miny, maxy, style, asWritten).y == (last - first) / 2 + first
  {
    var x0 := minx + Offset(t.branchLength, style.scale);
    var st := Sweeping(miny, 0, 0, []);
    SweepFrom(t.children, 0, x0, miny, maxy - miny, NTips(t), style, asWritten, st);
    LayoutY(t, minx, miny, maxy, style, asWritten);
  }

  /**
   * An internal node's y is the floor-midpoint of the first and last y its
   * loop records, and its drawing ends with the connector between those two
   * and its own branch.
   */
  lemma LayoutY(t: Tree, minx: int, miny: int, maxy: int, style: Style, asWritten: bool)
    requires |t.children| > 0
    ensures var x0 := minx + Offset(t.branchLength, style.scale);
            var s := Sweep(t.children, 0, x0, maxy - miny, NTips(t), style, asWritten, Sweeping(miny, 0, 0, []));
            var d := Layout(t, minx, miny, maxy, style, asWritten);
            && d.y == (s.top - s.bottom) / 2 + s.bottom
            && d.marks == s.marks + [Line(x0, s.bottom, x0, s.top), Line(minx, d.y, x0, d.y)]
  {
  }

  /**
   * An internal node's last two strokes are the vertical connector at
   * minx + x, spanning exactly its first and last child's y, and the
   * horizontal branch back to its ancestor at minx.
   */
  lemma Connector(t: Tree, minx: int, miny: int, maxy: int, style: Style, asWritten: bool)
    requires |t.children| > 0
    ensures var x0 := minx + Offset(t.branchLength, style.scale);
            var first := ChildY(t.children, 0, x0, miny, maxy - miny, NTips(t), style, asWritten);
            var last := if |t.children| == 1 && asWritten then 0
                        else ChildY(t.children, |t.children| - 1, x0, miny, maxy - miny, NTips(t), style, asWritten);
            var d := Layout(t, minx, miny, maxy, style, asWritten);
            && |d.marks| >= 2
            && d.marks[|d.marks| - 2] == Line(x0, first, x0, last)
            && d.marks[|d.marks| - 1] == Line(minx, d.y, x0, d.y)
  {
    var x0 := minx + Offset(t.branchLength, style.scale);
    var st := Sweeping(miny, 0, 0, []);
    SweepFrom(t.children, 0, x0, miny, maxy - miny, NTips(t), style, asWritten, st);
    LayoutY(t, minx, miny, maxy, style, asWritten);
    var s := Sweep(t.children, 0, x0, maxy - miny, NTips(t), style, asWritten, st);
    var d := Layout(t, minx, miny, maxy, style, asWritten);
    var tail := [Line(x0, s.bottom, x0, s.top), Line(minx, d.y, x0, d.y)];
    assert d.marks == s.marks + tail;
    assert d.marks[|d.marks| - 2] == tail[0] && d.marks[|d.marks| - 1] == tail[1];
  }

  /** A tip is drawn at the floor-midpoint of its band and joined to its ancestor by a horizontal branch. */
  lemma TipAtMidpoint(t: Tree, minx: int, miny: int, maxy: int, style: Style, asWritten: bool)
    requires IsTip(t) && miny <= maxy
    ensures var d := Layout(t, minx, miny, maxy, style, asWritten);
            && miny <= d.y <= maxy
            && d.y - miny <= maxy - d.y <= d.y - miny + 1
            && d.marks[|d.marks| - 1] == Line(minx, d.y, minx + Offset(t.branchLength, style.scale), d.y)
  {
  }

  /** With a non-negative height, the bands never run backwards. */
  lemma {:induction false} EdgeMonotone(ts: seq<Tree>, j: nat, k: nat, miny: int, height: int, nd: nat)
    requires j <= k <= |ts| && nd > 0 && height >= 0
    ensures Edge(ts, j, miny, height, nd) <= Edge(ts, k, miny, height, nd)
    decreases k
  {
    if j < k {
      EdgeMonotone(ts, j, k - 1, miny, height, nd);
      ShareBounds(NTips(ts[k - 1]), nd, height);
    }
  }

  /**
   * The first k bands together take no more than one band owed to the tips
   * of the first k children.
   */
  lemma {:induction false} EdgeBound(ts: seq<Tree>, k: nat, miny: int, height: int, nd: nat)
    requires k <= |ts| && nd > 0 && height >= 0
    ensures Edge(ts, k, miny, height, nd) - miny <= Share(NTipsList(ts[..k]), nd, height)
  {
    if k == 0 {
      ShareBounds(0, nd, height);
    } else {
      EdgeBound(ts, k - 1, miny, height, nd);
      var ndd := NTips(ts[k - 1]);
      assert ts[..k] == ts[..k - 1] + [ts[k - 1]];
      NTipsListAppend(ts[..k - 1], [ts[k - 1]]);
      assert NTipsList([ts[k - 1]]) == ndd by {
        assert [ts[k - 1]][1..] == [];
      }
      ShareAdd(NTipsList(ts[..k - 1]), ndd, nd, height);
    }
  }

  /** All of a node's bands end at or before maxy: the children's tips add up to the node's. */
  lemma BandsFit(t: Tree, miny: int, maxy: int)
    requires |t.children| > 0 && miny <= maxy
    ensures Edge(t.children, |t.children|, miny, maxy - miny, NTips(t)) <= maxy
  {
    var ts := t.children;
    EdgeBound(ts, |ts|, miny, maxy - miny, NTips(t));
    assert ts[..|ts|] == ts;
    ShareWhole(NTips(t), maxy - miny);
  }

  // ---------------------------------------------------------------------
  // The band contract, for the intended layout
  // ---------------------------------------------------------------------

  /** Drawn in [miny, maxy], a node lands inside its band. */
  lemma {:induction false} LayoutInBand(t: Tree, minx: int, miny: int, maxy: int, style: Style)
    requires miny <= maxy
    ensures miny <= Layout(t, minx, miny, maxy, style, false).y <= maxy
    decreases t
  {
    if |t.children| > 0 {
      var ts := t.children;
      var n := |ts|;
      var nd := NTips(t);
      var height := maxy - miny;
      var x0 := minx + Offset(t.branchLength, style.scale);
      NodeY(t, minx, miny, maxy, style, false);
      BandsInOrder(t, miny, maxy);
      var first := ChildY(ts, 0, x0, miny, height, nd, style, false);
      var last := ChildY(ts, n - 1, x0, miny, height, nd, style, false);
      LayoutInBand(ts[0], x0, Edge(ts, 0, miny, height, nd), Edge(ts, 1, miny, height, nd), style);
      LayoutInBand(ts[n - 1], x0, Edge(ts, n - 1, miny, height, nd), Edge(ts, n, miny, height, nd), style);
      if n == 1 {
        assert last == first;
      }
      Midpoint(first, last);
    }
  }

  /** In bands of non-negative height, the first child lies at or above the last. */
  lemma ChildrenInOrder(ts: seq<Tree>, x0: int, miny: int, height: int, nd: nat, style: Style)
    requires |ts| > 0 && nd > 0 && height >= 0
    ensures ChildY(ts, 0, x0, miny, height, nd, style, false) <= ChildY(ts, |ts| - 1, x0, miny, height, nd, style, false)
  {
    var n := |ts|;
    if n > 1 {
      ChildInBand(ts, 0, x0, miny, height, nd, style);
      ChildInBand(ts, n - 1, x0, miny, height, nd, style);
      EdgeMonotone(ts, 1, n - 1, miny, height, nd);
    }
  }

  /** Drawn in a band of non-negative height, the j-th child lands inside its own band. */
  lemma ChildInBand(ts: seq<Tree>, j: nat, x0: int, miny: int, height: int, nd: nat, style: Style)
    requires j < |ts| && nd > 0 && height >= 0
    ensures Edge(ts, j, miny, height, nd) <= ChildY(ts, j, x0, miny, height, nd, style, false) <= Edge(ts, j + 1, miny, height, nd)
  {
    EdgeMonotone(ts, j, j + 1, miny, height, nd);
    LayoutInBand(ts[j], x0, Edge(ts, j, miny, height, nd), Edge(ts, j + 1, miny, height, nd), style);
  }

  /** The floor-midpoint of two ordered values lies between them. */
  lemma Midpoint(lo: int, hi: int)
    requires lo <= hi
    ensures lo <= (hi - lo) / 2 + lo <= hi
  {
  }

  /** A node's bands run upward from miny, in order, and end at or before maxy. */
  lemma BandsInOrder(t: Tree, miny: int, maxy: int)
    requires |t.children| > 0 && miny <= maxy
    ensures var ts, n, nd := t.children, |t.children|, NTips(t);
            && miny == Edge(ts, 0, miny, maxy - miny, nd)
            && Edge(ts, 0, miny, maxy - miny, nd) <= Edge(ts, 1, miny, maxy - miny, nd)
            && (n > 1 ==> Edge(ts, 1, miny, maxy - miny, nd) <= Edge(ts, n - 1, miny, maxy - miny, nd))
            && Edge(ts, n - 1, miny, maxy - miny, nd) <= Edge(ts, n, miny, maxy - miny, nd) <= maxy
  {
    var ts, n, nd := t.children, |t.children|, NTips(t);
    BandsFit(t, miny, maxy);
    EdgeMonotone(ts, 0, 1, miny, maxy - miny, nd);
    if n > 1 {
      EdgeMonotone(ts, 1, n - 1, miny, maxy - miny, nd);
    }
    EdgeMonotone(ts, n - 1, n, miny, maxy - miny, nd);
  }

  // ---------------------------------------------------------------------
  // The layout as written, and where it departs from the intended one
  // ---------------------------------------------------------------------

  /** No node of the tree has exactly one child. */
  predicate NoLoneChild(t: Tree) {
    |t.children| != 1 && forall c :: c in t.children ==> NoLoneChild(c)
  }

  /** Without a lone child anywhere, the layout as written is the intended one. */
  lemma {:induction false} LayoutAgrees(t: Tree, minx: int, miny: int, maxy: int, style: Style)
    requires NoLoneChild(t)
    ensures Layout(t, minx, miny, maxy, style, true) == Layout(t, minx, miny, maxy, style, false)
    decreases t, 0
  {
    if |t.children| > 0 {
      SweepAgrees(t.children, 0, minx + Offset(t.branchLength, style.scale), maxy - miny, NTips(t), style,
                  Sweeping(miny, 0, 0, []));
    }
  }

  lemma {:induction false} SweepAgrees(ts: seq<Tree>, k: nat, x0: int, height: int, nd: nat, style: Style, st: Sweeping)
    requires k <= |ts| && nd > 0 && |ts| != 1
    requires forall c :: c in ts ==> NoLoneChild(c)
    ensures Sweep(ts, k, x0, height, nd, style, true, st) == Sweep(ts, k, x0, height, nd, style, false, st)
    decreases ts, |ts| - k
  {
    if k < |ts| {
      var bottomy := st.topy + Share(NTips(ts[k]), nd, height);
      assert ts[k] in ts;
      LayoutAgrees(ts[k], x0, st.topy, bottomy, style);
      var d := Layout(ts[k], x0, st.topy, bottomy, style, false);
      var bottom := if k == 0 then d.y else st.bottom;
      var top := if k == |ts| - 1 then d.y else st.top;
      SweepAgrees(ts, k + 1, x0, height, nd, style, Sweeping(bottomy, bottom, top, st.marks + d.marks));
    }
  }

  /** Hence, without a lone child, the source's own layout keeps the band contract. */
  lemma AsWrittenInBand(t: Tree, minx: int, miny: int, maxy: int, style: Style)
    requires NoLoneChild(t) && miny <= maxy
    ensures miny <= Layout(t, minx, miny, maxy, style, true).y <= maxy
  {
    LayoutAgrees(t, minx, miny, maxy, style);
    LayoutInBand(t, minx, miny, maxy, style);
  }

  /**
   * As written, a node with one child never records that child as its last,
   * so the node is drawn halfway between the child and y = 0, and its
   * connector runs down to 0; the intended layout puts it level with the child.
   */
  lemma LoneChild(t: Tree, minx: int, miny: int, maxy: int, style: Style)
    requires |t.children| == 1
    ensures var x0 := minx + Offset(t.branchLength, style.scale);
            var c := ChildY(t.children, 0, x0, miny, maxy - miny, NTips(t), style, true);
            Layout(t, minx, miny, maxy, style, true).y == (0 - c) / 2 + c
    ensures var x0 := minx + Offset(t.branchLength, style.scale);
            Layout(t, minx, miny, maxy, style, false).y == ChildY(t.children, 0, x0, miny, maxy - miny, NTips(t), style, false)
  {
    NodeY(t, minx, miny, maxy, style, true);
    NodeY(t, minx, miny, maxy, style, false);
  }

  /** A root with one tip, drawn in [10, 20]: as written it lands at 7, outside the band; intended, at 15. */
  lemma LoneChildLeavesBand()
    ensures Layout(Tree("", 1.0, [Tree("A", 1.0, [])]), 0, 10, 20, Style(1.0, false), true).y == 7
    ensures Layout(Tree("", 1.0, [Tree("A", 1.0, [])]), 0, 10, 20, Style(1.0, false), false).y == 15
  {
    var t := Tree("", 1.0, [Tree("A", 1.0, [])]);
    assert NTips(t.children[0]) == 1;
    assert NTips(t) == 1;
    assert Offset(1.0, 1.0) == 1;
    assert Share(1, 1, 10) == 10;
    LoneChild(t, 0, 10, 20, Style(1.0, false));
    assert Edge(t.children, 1, 10, 10, 1) == 20;
    assert ChildY(t.children, 0, 1, 10, 10, 1, Style(1.0, false), true) == 15;
    assert ChildY(t.children, 0, 1, 10, 10, 1, Style(1.0, false), false) == 15;
  }
}
