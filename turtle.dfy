/**
 * `tree_turtle` of tree_turtle.py: the proportional dendrogram layout. A
 * node's vertical band [miny, maxy] is split among its children in
 * proportion to their tip counts, each tip sits at the floor-midpoint of its
 * band and each internal node at the floor-midpoint of its first and last
 * child; every node is shifted right of its ancestor by trunc(branch_length
 * * scale) pixels.
 *
 * The pen moves become `Mark` records: a `Line` for each stroke drawn with
 * the pen down and a `Text` for each tip label. `Layout` states the result
 * as a function; the recursive method `TreeTurtle` computes it the way the
 * source does, with a loop over the children.
 */
module Turtle {
  import opened Wrappers
  import opened TreeModel

  /** Horizontal space between a tip and its label (name_padding). */
  const NamePadding: int := 10
  /** Vertical shift of a label for the font height (yadj). */
  const FontShift: int := 5

  /** What the pen leaves on the canvas. */
  datatype Mark =
    | Line(x1: int, y1: int, x2: int, y2: int)   // pen down from (x1, y1) to (x2, y2)
    | Text(x: int, y: int, text: string)         // a label written at (x, y)

  /** The y a call returns, and the marks it draws, in drawing order. */
  datatype Drawing = Drawing(y: int, marks: seq<Mark>)

  /** How a tree is drawn: pixels per unit of branch length, and whether tips are labelled. */
  datatype Style = Style(scale: real, drawLabels: bool)

  /** math.trunc: the integer part, rounding toward zero. */
  function Trunc(r: real): int {
    if r >= 0.0 then r.Floor else -((-r).Floor)
  }

  /** Trunc leaves a non-negative remainder below one, on the side of zero. */
  lemma TruncBounds(r: real)
    ensures r >= 0.0 ==> 0 <= Trunc(r) && Trunc(r) as real <= r < Trunc(r) as real + 1.0
    ensures r < 0.0 ==> Trunc(r) <= 0 && Trunc(r) as real - 1.0 < r <= Trunc(r) as real
  {
  }

  /** The horizontal length of a node's branch: trunc(branch_length * scale). */
  function Offset(branchLength: real, scale: real): int {
    Trunc(branchLength * scale)
  }

  /**
   * The height of the band of a child with ndd of the node's nd tips, out of
   * the node's height: ndd * height / nd rounded toward zero, in integers
   * (ShareIsTrunc ties it to the source's real-valued expression).
   */
  function Share(ndd: nat, nd: nat, height: int): int
    requires nd > 0
  {
    if height >= 0 then (ndd * height) / nd else 0 - (ndd * -height) / nd
  }

  /** The one q with q * n <= a < (q + 1) * n is a / n. */
  lemma QuotientUnique(a: nat, n: nat, q: int)
    requires n > 0 && q * n <= a < (q + 1) * n
    ensures q == a / n
  {
    FloorDiv(a, n);
    var p := a / n;
    if q < p {
      MulLe(q + 1, p, n);
    } else if q > p {
      MulLe(p + 1, q, n);
    }
  }

  /** Multiplying by a natural number keeps the order. */
  lemma MulLe(x: int, y: int, n: nat)
    requires x <= y
    ensures x * n <= y * n
  {
    assert y * n - x * n == (y - x) * n;
  }

  /** Floor division brackets its dividend. */
  lemma FloorDiv(a: nat, n: nat)
    requires n > 0
    ensures 0 <= a / n && (a / n) * n <= a < (a / n + 1) * n
  {
    var q := a / n;
    assert a == n * q + a % n;
    assert (q + 1) * n == q * n + n;
  }

  /**
   * A band's height is the share of the node's height its tips are owed,
   * rounded toward zero: never more, and less by under one tip's worth.
   */
  lemma ShareBounds(ndd: nat, nd: nat, height: int)
    requires nd > 0
    ensures height >= 0 ==> 0 <= Share(ndd, nd, height)
    ensures height >= 0 ==> Share(ndd, nd, height) * nd <= ndd * height < (Share(ndd, nd, height) + 1) * nd
    ensures Share(ndd, nd, -height) == -Share(ndd, nd, height)
  {
    if height >= 0 {
      FloorDiv(ndd * height, nd);
    } else {
      assert -(-height) == height;
    }
  }

  /** Rounding down each band loses height: two bands take no more than one band for both. */
  lemma ShareAdd(a: nat, b: nat, nd: nat, height: int)
    requires nd > 0 && height >= 0
    ensures Share(a, nd, height) + Share(b, nd, height) <= Share(a + b, nd, height)
  {
    var x, y := a * height, b * height;
    assert (a + b) * height == x + y;
    DivAdd(x, y, nd);
  }

  /** A child holding all of a node's tips gets the node's whole height. */
  lemma ShareWhole(nd: nat, height: int)
    requires nd > 0 && height >= 0
    ensures Share(nd, nd, height) == height
  {
    assert (height + 1) * nd == height * nd + nd;
    QuotientUnique(nd * height, nd, height);
  }

  /** The sum of two floor quotients is at most the floor quotient of the sum. */
  lemma DivAdd(x: nat, y: nat, n: nat)
    requires n > 0
    ensures x / n + y / n <= (x + y) / n
  {
    FloorDiv(x, n);
    FloorDiv(y, n);
    FloorDiv(x + y, n);
    var q := x / n + y / n;
    assert q * n == (x / n) * n + (y / n) * n;
    if q > (x + y) / n {
      MulLe((x + y) / n + 1, q, n);
    }
  }

  /** The floor of an exact quotient is the integer quotient. */
  lemma FloorOfQuotient(a: nat, n: nat)
    requires n > 0
    ensures (a as real / n as real).Floor == a / n
  {
    var q := a / n;
    FloorDiv(a, n);
    var r := a as real / n as real;
    QuotientBetween(q as real, r, a as real, n as real, q * n, (q + 1) * n, a, n);
  }

  /** From q * n <= a < (q + 1) * n, with n > 0, q <= a / n < q + 1. */
  lemma QuotientBetween(qr: real, r: real, ar: real, nr: real, lo: int, hi: int, a: int, n: int)
    requires n > 0 && nr == n as real && ar == a as real && r == ar / nr
    requires lo <= a < hi
    requires lo as real == qr * nr && hi as real == (qr + 1.0) * nr
    ensures qr <= r < qr + 1.0
  {
    assert r * nr == ar;
    if r < qr {
      MulNonNegative(qr - r, nr);
    }
    if r >= qr + 1.0 {
      MulNonNegative(r - qr - 1.0, nr);
    }
  }

  /** A non-negative multiple of a positive number is non-negative, and positive if the factor is. */
  lemma MulNonNegative(d: real, nr: real)
    requires d >= 0.0 && nr > 0.0
    ensures d * nr >= 0.0
    ensures d > 0.0 ==> d * nr > 0.0
  {
  }

  /** The band height is the source's trunc(ndd / nd * height), taken exactly. */
  lemma ShareIsTrunc(ndd: nat, nd: nat, height: int)
    requires nd > 0
    ensures Share(ndd, nd, height) == Trunc((ndd as real / nd as real) * height as real)
  {
    var r := (ndd as real / nd as real) * height as real;
    if height >= 0 {
      assert r == (ndd * height) as real / nd as real;
      FloorOfQuotient(ndd * height, nd);
    } else {
      assert -r == (ndd * -height) as real / nd as real;
      FloorOfQuotient(ndd * -height, nd);
    }
  }

  // ---------------------------------------------------------------------
  // The layout as a function
  // ---------------------------------------------------------------------

  /** The state the loop over the children carries: topy, bottom_vert_line, top_vert_line and the marks so far. */
  datatype Sweeping = Sweeping(topy: int, bottom: int, top: int, marks: seq<Mark>)

  /**
   * tree_turtle(t, minx, _, miny, maxy, scale, drawLabels, _). With asWritten,
   * the last child's y is recorded only when it is not also the first, as in
   * the source; without it, always.
   */
  function Layout(t: Tree, minx: int, miny: int, maxy: int, style: Style, asWritten: bool): Drawing
    decreases t, 0
  {
    var x := Offset(t.branchLength, style.scale);
    if |t.children| > 0 then
      var s := Sweep(t.children, 0, minx + x, maxy - miny, NTips(t), style, asWritten, Sweeping(miny, 0, 0, []));
      var y := (s.top - s.bottom) / 2 + s.bottom;
      Drawing(y, s.marks + [Line(minx + x, s.bottom, minx + x, s.top), Line(minx, y, minx + x, y)])
    else
      var y := (maxy - miny) / 2 + miny;
      var tag := if style.drawLabels then [Text(minx + x + NamePadding, y - FontShift, t.name)] else [];
      Drawing(y, tag + [Line(minx, y, minx + x, y)])
  }

  /** The loop over the children from the k-th on, each drawn in the next band. */
  function Sweep(ts: seq<Tree>, k: nat, x0: int, height: int, nd: nat, style: Style, asWritten: bool, st: Sweeping): Sweeping
    requires k <= |ts| && nd > 0
    decreases ts, |ts| - k
  {
    if k == |ts| then st
    else
      var bottomy := st.topy + Share(NTips(ts[k]), nd, height);
      var d := Layout(ts[k], x0, st.topy, bottomy, style, asWritten);
      var bottom := if k == 0 then d.y else st.bottom;
      var top := if k == |ts| - 1 && (k != 0 || !asWritten) then d.y else st.top;
      Sweep(ts, k + 1, x0, height, nd, style, asWritten, Sweeping(bottomy, bottom, top, st.marks + d.marks))
  }

  // ---------------------------------------------------------------------
  // The layout as the source computes it
  // ---------------------------------------------------------------------

  /** tree_turtle, with the pen's strokes and labels returned instead of drawn. */
  method TreeTurtle(t: Tree, minx: int, miny: int, maxy: int, style: Style) returns (y: int, marks: seq<Mark>)
    ensures Drawing(y, marks) == Layout(t, minx, miny, maxy, style, true)
    decreases t
  {
    var x := Offset(t.branchLength, style.scale);
    marks := [];
    if |t.children| > 0 {
      var topVertLine, bottomVertLine := 0, 0;
      var nd := NTips(t);
      var topy := miny;
      var n := |t.children|;
      ghost var whole := Sweep(t.children, 0, minx + x, maxy - miny, nd, style, true, Sweeping(miny, 0, 0, []));
      for i := 0 to n
        invariant Sweep(t.children, i, minx + x, maxy - miny, nd, style, true,
                        Sweeping(topy, bottomVertLine, topVertLine, marks)) == whole
      {
        ghost var before := Sweeping(topy, bottomVertLine, topVertLine, marks);
        var d := t.children[i];
        var ndd := NTips(d);
        var bottomy := topy + Share(ndd, nd, maxy - miny);
        var yd, md := TreeTurtle(d, minx + x, topy, bottomy, style);
        if i == 0 {
          bottomVertLine := yd;
        } else if i == n - 1 {
          topVertLine := yd;
        }
        marks := marks + md;
        topy := bottomy;
        assert Sweep(t.children, i, minx + x, maxy - miny, nd, style, true, before)
            == Sweep(t.children, i + 1, minx + x, maxy - miny, nd, style, true,
                     Sweeping(topy, bottomVertLine, topVertLine, marks));
      }
      assert whole == Sweeping(topy, bottomVertLine, topVertLine, marks);
      marks := marks + [Line(minx + x, bottomVertLine, minx + x, topVertLine)];
      y := (topVertLine - bottomVertLine) / 2 + bottomVertLine;
    } else {
      y := (maxy - miny) / 2 + miny;
      if style.drawLabels {
        marks := marks + [Text(minx + x + NamePadding, y - FontShift, t.name)];
      }
    }
    marks := marks + [Line(minx, y, minx + x, y)];
  }

  /**
   * draw_tree_turtle: a 1000 by 1000 canvas, branch lengths scaled so that
   * the longest root-to-tip path spans 900 pixels, tips labelled. With no
   * length to scale by, the source divides by zero; here that is None.
   */
  method DrawTreeTurtle(root: Tree) returns (r: Option<Drawing>)
    ensures MaxNodeTipLength(root) == 0.0 <==> r.None?
    ensures r.Some? ==> r.value == Layout(root, 0, 0, 1000, Style(900.0 / MaxNodeTipLength(root), true), true)
  {
    var maxbranch := MaxNodeTipLength(root);
    if maxbranch == 0.0 {
      return None;
    }
    var scale := (1000.0 - 100.0) / maxbranch;
    var y, marks := TreeTurtle(root, 0, 0, 1000, Style(scale, true));
    return Some(Drawing(y, marks));
  }
}
