/**
 * What `read_newick_tree` of tree_utils.py promises, stated about `Parse`
 * (and so, through its postcondition, about `ReadNewickTree`): how many
 * nodes it creates, that malformed text is refused with an error, and that
 * it reads back what `output_newick` writes without branch lengths.
 */
module NewickProperties {
  import opened Wrappers
  import opened TreeModel
  import opened Newick

  // ---------------------------------------------------------------------
  // Label runs
  // ---------------------------------------------------------------------

  /** A label run ends at the first of "(),;" and its text is read as one label. */
  lemma {:induction false} RunEndsAtSymbol(s: string, i: nat, j: nat, k: nat, z: Cursor)
    requires i < |s| && !IsSymbol(s[i]) && i <= j <= k < |s|
    requires forall m :: i <= m < k ==> !IsSymbol(s[m])
    requires IsSymbol(s[k])
    ensures i < k && ScanRun(s, i, j, z) == ScanLabel(s, i, k, z)
    decreases k - j
  {
    assert !IsSymbol(s[i]);
    if j < k {
      assert !IsSymbol(s[j]);
      RunEndsAtSymbol(s, i, j + 1, k, z);
    }
  }

  /** A label run that reaches the end of the text is a missing ";". */
  lemma {:induction false} RunRunsOff(s: string, i: nat, j: nat, z: Cursor)
    requires i < |s| && !IsSymbol(s[i]) && i <= j <= |s|
    requires forall m :: i <= m < |s| ==> !IsSymbol(s[m])
    ensures ScanRun(s, i, j, z) == Err(MissingTerminator)
    decreases |s| - j
  {
    if j < |s| {
      RunRunsOff(s, i, j + 1, z);
    }
  }

  // ---------------------------------------------------------------------
  // Every "(" and every "," makes one node
  // ---------------------------------------------------------------------

  /** The number of "(" and "," in s from position i up to the first ";". */
  function NewNodes(s: string, i: nat): nat
    requires i <= |s|
    decreases |s| - i
  {
    if i == |s| || s[i] == ';' then 0
    else (if s[i] == '(' || s[i] == ',' then 1 else 0) + NewNodes(s, i + 1)
  }

  /** A label run adds no node. */
  lemma {:induction false} NewNodesSkipRun(s: string, i: nat, j: nat)
    requires i <= j <= |s|
    requires forall m :: i <= m < j ==> !IsSymbol(s[m])
    ensures NewNodes(s, i) == NewNodes(s, j)
    decreases j - i
  {
    if i < j {
      NewNodesSkipRun(s, i + 1, j);
    }
  }

  /** The nodes held by a stack of frames: each framed node and its finished children. */
  function FramedNodes(fs: seq<Frame>): nat {
    if fs == [] then 0
    else FramedNodes(fs[..|fs| - 1]) + 1 + SizeList(fs[|fs| - 1].left)
  }

  /** The nodes a cursor holds: its subtree and the frames above it. */
  function CursorNodes(z: Cursor): nat {
    Size(z.focus) + FramedNodes(z.context)
  }

  /** "(" and "," each add one node; ")" and labels add none; closing keeps them all. */
  lemma {:induction false} CursorSteps(z: Cursor)
    ensures CursorNodes(Open(z)) == CursorNodes(z) + 1
    ensures Sibling(z).Some? ==> CursorNodes(Sibling(z).value) == CursorNodes(z) + 1
    ensures CursorNodes(Up(z)) == CursorNodes(z)
    ensures forall l :: CursorNodes(Relabel(z, l)) == CursorNodes(z)
  {
    var ctx := z.context;
    var f0 := Frame(z.focus.name, z.focus.branchLength, z.focus.children);
    assert (ctx + [f0])[..|ctx|] == ctx;
    if ctx != [] {
      var f := ctx[|ctx| - 1];
      var up := ctx[..|ctx| - 1];
      var f1 := Frame(f.name, f.branchLength, f.left + [z.focus]);
      assert (up + [f1])[..|up|] == up;
      SizeListAppend(f.left, [z.focus]);
      assert SizeList([z.focus]) == Size(z.focus) by {
        assert [z.focus][1..] == [];
      }
    }
  }

  /** Climbing to the root keeps every node. */
  lemma {:induction false} CloseKeepsNodes(z: Cursor)
    ensures Size(Close(z)) == CursorNodes(z)
    decreases |z.context|
  {
    if z.context != [] {
      CursorSteps(z);
      CloseKeepsNodes(Up(z));
    }
  }

  lemma {:induction false} ScanNodes(s: string, i: nat, z: Cursor, t: Tree)
    requires i <= |s| && Scan(s, i, z) == Ok(t)
    ensures Size(t) == CursorNodes(z) + NewNodes(s, i)
    decreases |s| - i, |s| - i + 2
  {
    CursorSteps(z);
    if s[i] == ';' {
      CloseKeepsNodes(z);
    } else if s[i] == '(' {
      ScanNodes(s, i + 1, Open(z), t);
    } else if s[i] == ',' {
      ScanNodes(s, i + 1, Sibling(z).value, t);
    } else if s[i] == ')' {
      ScanNodes(s, i + 1, Up(z), t);
    } else {
      ScanRunNodes(s, i, i, z, t);
    }
  }

  lemma {:induction false} ScanRunNodes(s: string, i: nat, j: nat, z: Cursor, t: Tree)
    requires i < |s| && !IsSymbol(s[i]) && i <= j <= |s|
    requires forall k :: i <= k < j ==> !IsSymbol(s[k])
    requires ScanRun(s, i, j, z) == Ok(t)
    ensures Size(t) == CursorNodes(z) + NewNodes(s, i)
    decreases |s| - i, |s| - j
  {
    if j < |s| && !IsSymbol(s[j]) {
      ScanRunNodes(s, i, j + 1, z, t);
    } else {
      NewNodesSkipRun(s, i, j);
      ScanLabelNodes(s, i, j, z, t);
    }
  }

  lemma {:induction false} ScanLabelNodes(s: string, i: nat, j: nat, z: Cursor, t: Tree)
    requires i < j <= |s| && ScanLabel(s, i, j, z) == Ok(t)
    ensures Size(t) == CursorNodes(z) + NewNodes(s, j)
    decreases |s| - i, 0
  {
    var l := ReadLabel(s[i..j]).value;
    CursorSteps(z);
    ScanNodes(s, j, Relabel(z, l), t);
  }

  /** The tree read has one node for the first, and one for each "(" and "," before ";". */
  lemma {:induction false} NodeCount(s: string, t: Tree)
    requires Parse(s) == Ok(t)
    ensures Size(t) == 1 + NewNodes(s, 0)
  {
    ScanNodes(s, 0, Start(), t);
  }

  // ---------------------------------------------------------------------
  // Malformed text is refused
  // ---------------------------------------------------------------------

  /** A "," met while the cursor is at the root, after the root's label, is refused. */
  lemma {:induction false} CommaAfterRootLabel(name: string, rest: string)
    requires |name| > 0 && forall k :: 0 <= k < |name| ==> !IsSymbol(name[k]) && name[k] != ':'
    ensures Parse(name + "," + rest) == Err(CommaAtRoot)
  {
    var s := name + "," + rest;
    assert s[|name|] == ',' && s[..|name|] == name;
    assert forall k :: 0 <= k < |name| ==> s[k] == name[k];
    RunEndsAtSymbol(s, 0, 0, |name|, Start());
    assert ':' !in name;
  }

  // ---------------------------------------------------------------------
  // Reading back what output_newick writes without branch lengths
  // ---------------------------------------------------------------------

  /** The scan reads only the text ahead of it: dropping what lies behind changes nothing. */
  lemma {:induction false} ScanAhead(s: string, d: nat, i: nat, z: Cursor)
    requires d <= i <= |s|
    ensures Scan(s, i, z) == Scan(s[d..], i - d, z)
    decreases |s| - i, |s| - i + 2
  {
    var t := s[d..];
    if i < |s| {
      assert t[i - d] == s[i];
      if s[i] == '(' {
        ScanAhead(s, d, i + 1, Open(z));
      } else if s[i] == ',' {
        if Sibling(z).Some? {
          ScanAhead(s, d, i + 1, Sibling(z).value);
        }
      } else if s[i] == ')' {
        ScanAhead(s, d, i + 1, Up(z));
      } else if s[i] != ';' {
        RunAhead(s, d, i, i, z);
      }
    }
  }

  lemma {:induction false} RunAhead(s: string, d: nat, i: nat, j: nat, z: Cursor)
    requires d <= i < |s| && !IsSymbol(s[i]) && i <= j <= |s|
    requires forall k :: i <= k < j ==> !IsSymbol(s[k])
    ensures var t := s[d..]; !IsSymbol(t[i - d]) && (forall k :: i - d <= k < j - d ==> !IsSymbol(t[k]))
    ensures ScanRun(s, i, j, z) == ScanRun(s[d..], i - d, j - d, z)
    decreases |s| - i, |s| - j
  {
    var t := s[d..];
    assert forall k :: i - d <= k < j - d ==> t[k] == s[k + d];
    if j < |s| && !IsSymbol(s[j]) {
      assert t[j - d] == s[j];
      RunAhead(s, d, i, j + 1, z);
    } else if j < |s| {
      assert t[j - d] == s[j];
      assert t[i - d..j - d] == s[i..j];
      match ReadLabel(s[i..j]) {
        case Err(_) =>
        case Ok(l) => ScanAhead(s, d, j, Relabel(z, l));
      }
    }
  }

  /** Reading past a prefix p, from the start of p + rest. */
  lemma {:induction false} ScanPast(p: string, rest: string, z: Cursor)
    ensures Scan(p + rest, |p|, z) == Scan(rest, 0, z)
  {
    ScanAhead(p + rest, |p|, |p|, z);
    assert (p + rest)[|p|..] == rest;
  }

  /** The shapes of all but the last tree, then the last one's. */
  lemma {:induction false} ShapeListSnoc(ts: seq<Tree>)
    requires ts != []
    ensures ShapeList(ts[..|ts| - 1]) + [Shape(ts[|ts| - 1])] == ShapeList(ts)
  {
    var a := ShapeList(ts[..|ts| - 1]) + [Shape(ts[|ts| - 1])];
    assert forall k :: 0 <= k < |ts| ==> a[k] == ShapeList(ts)[k];
  }

  /** The shapes of all trees but the last: the first one's, then those of the rest but the last. */
  lemma {:induction false} ShapeListCons(ts: seq<Tree>)
    requires |ts| >= 2
    ensures [Shape(ts[0])] + ShapeList(ts[1..][..|ts| - 2]) == ShapeList(ts[..|ts| - 1])
  {
    var a := ShapeList(ts[1..][..|ts| - 2]);
    var b := ShapeList(ts[..|ts| - 1]);
    assert forall k :: 0 <= k < |a| ==> b[k + 1] == Shape(ts[k + 1]) == a[k];
  }

  /** A tip's name, met by a fresh cursor node, names that node. */
  lemma {:induction false} ScanTip(name: string, rest: string, ctx: seq<Frame>)
    requires |name| > 0 && IsLabel(name) && |rest| > 0 && IsSymbol(rest[0])
    ensures Scan(name + rest, 0, Cursor(Fresh(), ctx)) == Scan(rest, 0, Cursor(Tree(name, 1.0, []), ctx))
  {
    var s := name + rest;
    assert forall m :: 0 <= m < |name| ==> s[m] == name[m];
    assert s[|name|] == rest[0];
    RunEndsAtSymbol(s, 0, 0, |name|, Cursor(Fresh(), ctx));
    assert s[0..|name|] == name;
    ScanPast(name, rest, Cursor(Tree(name, 1.0, []), ctx));
  }

  /**
   * The text of t, met by a fresh cursor node, turns that node into Shape(t);
   * the scan then goes on after the text.
   */
  lemma {:induction false} ScanTree(t: Tree, rest: string, ctx: seq<Frame>)
    requires WellNamed(t) && |rest| > 0 && IsSymbol(rest[0])
    ensures Scan(NewickRecursion(t, None) + rest, 0, Cursor(Fresh(), ctx)) == Scan(rest, 0, Cursor(Shape(t), ctx))
    decreases t, 1
  {
    if IsTip(t) {
      assert NewickRecursion(t, None) == t.name;
      assert Shape(t) == Tree(t.name, 1.0, []);
      if t.name != [] {
        ScanTip(t.name, rest, ctx);
      } else {
        assert t.name + rest == rest;
      }
    } else {
      ScanNode(t, rest, ctx);
    }
  }

  /** The text of an internal node: "(", its children's texts, ")". */
  lemma {:induction false} ScanNode(t: Tree, rest: string, ctx: seq<Frame>)
    requires WellNamed(t) && !IsTip(t) && |rest| > 0 && IsSymbol(rest[0])
    ensures Scan(NewickRecursion(t, None) + rest, 0, Cursor(Fresh(), ctx)) == Scan(rest, 0, Cursor(Shape(t), ctx))
    decreases t, 0
  {
    var ts := t.children;
    var body := NewickList(ts, None);
    var s := NewickRecursion(t, None) + rest;
    var after := ")" + rest;
    assert s == "(" + (body + after);
    var z := Cursor(Fresh(), ctx);
    ScanPast("(", body + after, Open(z));
    ScanSiblings(ts, after, ctx, Frame("", 1.0, []));
    var n := |ts|;
    var left := ShapeList(ts[..n - 1]);
    var last := Cursor(Shape(ts[n - 1]), ctx + [Frame("", 1.0, [] + left)]);
    ScanPast(")", rest, Up(last));
    ShapeListSnoc(ts);
    assert Up(last) == Cursor(Shape(t), ctx) by {
      assert (ctx + [Frame("", 1.0, [] + left)])[..|ctx|] == ctx;
    }
  }

  /**
   * The texts of siblings ts, joined by "," and followed by ")", met by a
   * fresh cursor node under frame f: the cursor ends on the last sibling's
   * shape, with the others appended to the frame's finished children.
   */
  lemma {:induction false} ScanSiblings(ts: seq<Tree>, rest: string, ctx: seq<Frame>, f: Frame)
    requires ts != [] && forall k :: 0 <= k < |ts| ==> WellNamed(ts[k])
    requires |rest| > 0 && rest[0] == ')'
    ensures Scan(NewickList(ts, None) + rest, 0, Cursor(Fresh(), ctx + [f]))
         == Scan(rest, 0, Cursor(Shape(ts[|ts| - 1]), ctx + [Frame(f.name, f.branchLength, f.left + ShapeList(ts[..|ts| - 1]))]))
    decreases ts, 1
  {
    if |ts| == 1 {
      assert NewickList(ts, None) == NewickRecursion(ts[0], None);
      ScanTree(ts[0], rest, ctx + [f]);
      assert ts[..0] == [];
      assert f.left + ShapeList([]) == f.left;
    } else {
      ScanMoreSiblings(ts, rest, ctx, f);
    }
  }

  /** Two or more siblings: the first one's text, a ",", then the others'. */
  lemma {:induction false} ScanMoreSiblings(ts: seq<Tree>, rest: string, ctx: seq<Frame>, f: Frame)
    requires |ts| >= 2 && forall k :: 0 <= k < |ts| ==> WellNamed(ts[k])
    requires |rest| > 0 && rest[0] == ')'
    ensures Scan(NewickList(ts, None) + rest, 0, Cursor(Fresh(), ctx + [f]))
         == Scan(rest, 0, Cursor(Shape(ts[|ts| - 1]), ctx + [Frame(f.name, f.branchLength, f.left + ShapeList(ts[..|ts| - 1]))]))
    decreases ts, 0
  {
    var ts' := ts[1..];
    var others := NewickList(ts', None) + rest;
    assert NewickList(ts, None) + rest == NewickRecursion(ts[0], None) + ("," + others);
    ScanTree(ts[0], "," + others, ctx + [f]);
    var f' := Frame(f.name, f.branchLength, f.left + [Shape(ts[0])]);
    assert (ctx + [f])[..|ctx|] == ctx;
    assert Sibling(Cursor(Shape(ts[0]), ctx + [f])) == Some(Cursor(Fresh(), ctx + [f']));
    ScanPast(",", others, Cursor(Fresh(), ctx + [f']));
    assert forall k :: 0 <= k < |ts'| ==> WellNamed(ts'[k]) by {
      assert forall k :: 0 <= k < |ts'| ==> ts'[k] == ts[k + 1];
    }
    ScanSiblings(ts', rest, ctx, f');
    assert ts'[|ts'| - 1] == ts[|ts| - 1];
    ShapeListCons(ts);
    var tail := ShapeList(ts'[..|ts'| - 1]);
    assert f'.left + tail == f.left + ([Shape(ts[0])] + tail);
  }

  /**
   * output_newick without branch lengths, read back: the same shape and the
   * same tip names in order, with internal names dropped and every branch
   * length the default 1.
   */
  lemma {:induction false} RoundTrip(t: Tree)
    requires WellNamed(t)
    ensures Parse(OutputNewick(t, None)) == Ok(Shape(t))
    ensures TipNames(Parse(OutputNewick(t, None)).value) == TipNames(t)
    ensures Size(Parse(OutputNewick(t, None)).value) == Size(t)
  {
    ScanTree(t, ";", []);
    ShapeKeepsTips(t);
  }

  // ---------------------------------------------------------------------
  // Particular texts
  // ---------------------------------------------------------------------

  /** Reads "(A," and leaves the cursor on a fresh second child of the root. */
  lemma {:induction false} FirstTipThenComma(rest: string)
    requires |rest| > 0
    ensures Parse("(A," + rest) == Scan(rest, 0, Cursor(Fresh(), [Frame("", 1.0, [Tree("A", 1.0, [])])]))
  {
    var a := Tree("A", 1.0, []);
    var top, top' := Frame("", 1.0, []), Frame("", 1.0, [a]);
    var s := "(A," + rest;
    var after := "A" + ("," + rest);
    assert s == "(" + after && s[0] == '(';
    assert Open(Start()) == Cursor(Fresh(), [top]) by {
      assert [] + [top] == [top];
    }
    ScanPast("(", after, Open(Start()));
    assert Parse(s) == Scan(after, 0, Cursor(Fresh(), [top]));
    assert WellNamed(a) && NewickRecursion(a, None) == "A" && Shape(a) == a;
    ScanTree(a, "," + rest, [top]);
    assert Sibling(Cursor(a, [top])) == Some(Cursor(Fresh(), [top'])) by {
      assert [top][..0] + [top'] == [top'];
      assert top.left + [a] == [a];
      assert Frame(top.name, top.branchLength, top.left + [a]) == top';
    }
    assert ("," + rest)[0] == ',';
    ScanPast(",", rest, Cursor(Fresh(), [top']));
  }

  /** A list left open before ";" is still read: the ";" closes every open node. */
  lemma {:induction false} UnclosedListRead()
    ensures Parse("(A,B;") == Ok(Tree("", 1.0, [Tree("A", 1.0, []), Tree("B", 1.0, [])]))
  {
    var a, b := Tree("A", 1.0, []), Tree("B", 1.0, []);
    var top' := Frame("", 1.0, [a]);
    assert "(A,B;" == "(A," + "B;";
    FirstTipThenComma("B;");
    assert WellNamed(b) && NewickRecursion(b, None) + ";" == "B;" && Shape(b) == b;
    ScanTree(b, ";", [top']);
    assert Up(Cursor(b, [top'])) == Cursor(Tree("", 1.0, [a, b]), []);
  }

  /** A label with two colons is refused. */
  lemma {:induction false} TwoColonsRefused()
    ensures Parse("(A:1:2);") == Err(TooManyColons)
  {
    var s := "(A:1:2);";
    RunEndsAtSymbol(s, 1, 1, 6, Open(Start()));
    assert s[1..6] == "A" + ":" + "1:2";
    ReadTwoColonsLabel("A", "1:2");
  }

  /** A text that ends inside a label is refused as unterminated. */
  lemma {:induction false} UnterminatedRefused()
    ensures Parse("(A,B") == Err(MissingTerminator)
  {
    assert "(A,B" == "(A," + "B";
    FirstTipThenComma("B");
    RunRunsOff("B", 0, 0, Cursor(Fresh(), [Frame("", 1.0, [Tree("A", 1.0, [])])]));
  }
}
