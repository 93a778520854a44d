/**
 * The rooted tree of a phylogeny, as a value: each node has a name, the
 * length of the branch to its ancestor and an ordered list of children.
 * The recursive read-only queries of `Node` in tree_utils.py and the Newick
 * serialiser are functions over it.
 */
module TreeModel {
  import opened Wrappers

  /** A node together with all of its descendants, in their stored order. */
  datatype Tree = Tree(name: string, branchLength: real, children: seq<Tree>)

  /** A newly created node: empty name, branch length 1, no descendants. */
  function Fresh(): (t: Tree)
    ensures t.name == "" && t.branchLength == 1.0 && t.children == []
  {
    Tree("", 1.0, [])
  }

  predicate IsTip(t: Tree) {
    |t.children| == 0
  }

  /** The number of nodes of the tree. */
  function Size(t: Tree): (n: nat)
    ensures n >= 1
  {
    1 + SizeList(t.children)
  }

  function SizeList(ts: seq<Tree>): (n: nat)
    ensures n >= |ts|
  {
    if ts == [] then 0 else Size(ts[0]) + SizeList(ts[1..])
  }

  lemma {:induction false} SizeListAppend(a: seq<Tree>, b: seq<Tree>)
    ensures SizeList(a + b) == SizeList(a) + SizeList(b)
  {
    if a != [] {
      assert (a + b)[1..] == a[1..] + b;
      SizeListAppend(a[1..], b);
    } else {
      assert a + b == b;
    }
  }

  /** u is t itself or a node somewhere below it. */
  predicate Occurs(u: Tree, t: Tree) {
    u == t || exists k :: 0 <= k < |t.children| && Occurs(u, t.children[k])
  }

  // ---------------------------------------------------------------------
  // Tip counts and tip lists
  // ---------------------------------------------------------------------

  /** n_tips: 1 for a tip, otherwise the sum over the children. */
  function NTips(t: Tree): (n: nat)
    ensures n >= 1
    ensures n <= Size(t)
  {
    if IsTip(t) then 1 else NTipsList(t.children)
  }

  function NTipsList(ts: seq<Tree>): (n: nat)
    ensures n >= |ts|
    ensures n <= SizeList(ts)
  {
    if ts == [] then 0 else NTips(ts[0]) + NTipsList(ts[1..])
  }

  lemma {:induction false} NTipsListAppend(a: seq<Tree>, b: seq<Tree>)
    ensures NTipsList(a + b) == NTipsList(a) + NTipsList(b)
  {
    if a != [] {
      assert (a + b)[1..] == a[1..] + b;
      NTipsListAppend(a[1..], b);
    } else {
      assert a + b == b;
    }
  }

  /** tip_nodes: the tips below t in depth-first, left-to-right order. */
  function TipNodes(t: Tree): (r: seq<Tree>)
    ensures |r| == NTips(t)
    ensures forall k :: 0 <= k < |r| ==> IsTip(r[k])
  {
    if IsTip(t) then [t] else TipNodesList(t.children)
  }

  function TipNodesList(ts: seq<Tree>): (r: seq<Tree>)
    ensures |r| == NTipsList(ts)
    ensures forall k :: 0 <= k < |r| ==> IsTip(r[k])
  {
    if ts == [] then [] else TipNodes(ts[0]) + TipNodesList(ts[1..])
  }

  /** Every node tip_nodes returns lies in the tree it was asked about. */
  lemma {:induction false} TipNodesOccur(t: Tree)
    ensures forall k :: 0 <= k < |TipNodes(t)| ==> Occurs(TipNodes(t)[k], t)
    decreases t, 1
  {
    if !IsTip(t) {
      TipNodesListOccur(t.children);
    }
  }

  lemma {:induction false} TipNodesListOccur(ts: seq<Tree>)
    ensures forall k :: 0 <= k < |TipNodesList(ts)| ==>
      exists j :: 0 <= j < |ts| && Occurs(TipNodesList(ts)[k], ts[j])
    decreases ts, 0
  {
    if ts != [] {
      TipNodesOccur(ts[0]);
      TipNodesListOccur(ts[1..]);
      var head, tail := TipNodes(ts[0]), TipNodesList(ts[1..]);
      forall k | 0 <= k < |TipNodesList(ts)|
        ensures exists j :: 0 <= j < |ts| && Occurs(TipNodesList(ts)[k], ts[j])
      {
        if k < |head| {
          assert TipNodesList(ts)[k] == head[k];
          assert Occurs(head[k], ts[0]);
        } else {
          assert TipNodesList(ts)[k] == tail[k - |head|];
          var j :| 0 <= j < |ts[1..]| && Occurs(tail[k - |head|], ts[1..][j]);
          assert ts[1..][j] == ts[j + 1];
        }
      }
    } else {
      assert TipNodesList(ts) == [];
    }
  }

  /** Every tip of the tree is listed by tip_nodes. */
  lemma {:induction false} TipNodesComplete(t: Tree, u: Tree)
    requires Occurs(u, t) && IsTip(u)
    ensures u in TipNodes(t)
    decreases t, 1
  {
    if u != t {
      var k :| 0 <= k < |t.children| && Occurs(u, t.children[k]);
      TipNodesListComplete(t.children, k, u);
    }
  }

  lemma {:induction false} TipNodesListComplete(ts: seq<Tree>, k: nat, u: Tree)
    requires k < |ts| && Occurs(u, ts[k]) && IsTip(u)
    ensures u in TipNodesList(ts)
    decreases ts, 0
  {
    if k == 0 {
      TipNodesComplete(ts[0], u);
    } else {
      assert ts[1..][k - 1] == ts[k];
      TipNodesListComplete(ts[1..], k - 1, u);
    }
  }

  /** A subtree of a subtree is a subtree. */
  lemma {:induction false} OccursTransitive(u: Tree, v: Tree, w: Tree)
    requires Occurs(u, v) && Occurs(v, w)
    ensures Occurs(u, w)
    decreases w
  {
    if v != w {
      var k :| 0 <= k < |w.children| && Occurs(v, w.children[k]);
      OccursTransitive(u, v, w.children[k]);
    }
  }

  /** tip_names: one name per tip, in depth-first, left-to-right order. */
  function TipNames(t: Tree): (r: seq<string>)
    ensures |r| == NTips(t)
  {
    if IsTip(t) then [t.name] else TipNamesList(t.children)
  }

  function TipNamesList(ts: seq<Tree>): (r: seq<string>)
    ensures |r| == NTipsList(ts)
  {
    if ts == [] then [] else TipNames(ts[0]) + TipNamesList(ts[1..])
  }

  /** The two tip lists agree: tip_names lists the names of tip_nodes, in order. */
  lemma {:induction false} TipNamesAreTipNodeNames(t: Tree)
    ensures |TipNames(t)| == |TipNodes(t)| == NTips(t)
    ensures forall k :: 0 <= k < |TipNames(t)| ==> TipNames(t)[k] == TipNodes(t)[k].name
    decreases t, 1
  {
    if !IsTip(t) {
      TipNamesListAreTipNodeNames(t.children);
    }
  }

  lemma {:induction false} TipNamesListAreTipNodeNames(ts: seq<Tree>)
    ensures |TipNamesList(ts)| == |TipNodesList(ts)|
    ensures forall k :: 0 <= k < |TipNamesList(ts)| ==> TipNamesList(ts)[k] == TipNodesList(ts)[k].name
    decreases ts, 0
  {
    if ts != [] {
      TipNamesAreTipNodeNames(ts[0]);
      TipNamesListAreTipNodeNames(ts[1..]);
      var n := |TipNames(ts[0])|;
      forall k | 0 <= k < |TipNamesList(ts)|
        ensures TipNamesList(ts)[k] == TipNodesList(ts)[k].name
      {
        if k < n {
          assert TipNamesList(ts)[k] == TipNames(ts[0])[k];
          assert TipNodesList(ts)[k] == TipNodes(ts[0])[k];
        } else {
          assert TipNamesList(ts)[k] == TipNamesList(ts[1..])[k - n];
          assert TipNodesList(ts)[k] == TipNodesList(ts[1..])[k - n];
        }
      }
    }
  }

  lemma {:induction false} TipNamesListAppend(a: seq<Tree>, b: seq<Tree>)
    ensures TipNamesList(a + b) == TipNamesList(a) + TipNamesList(b)
  {
    if a != [] {
      assert (a + b)[0] == a[0] && (a + b)[1..] == a[1..] + b;
      TipNamesListAppend(a[1..], b);
      assert TipNamesList(a + b) == TipNames(a[0]) + TipNamesList(a[1..] + b);
    } else {
      assert a + b == b;
    }
  }

  // ---------------------------------------------------------------------
  // Depth maxima
  // ---------------------------------------------------------------------

  /** max_node_tip_count: nodes on the longest downward path, counting t itself. */
  function MaxNodeTipCount(t: Tree): (c: nat)
    ensures c >= 1
    ensures c == 1 <==> IsTip(t)
    ensures forall k :: 0 <= k < |t.children| ==> c > MaxNodeTipCount(t.children[k])
  {
    MaxCountList(t.children) + 1
  }

  function MaxCountList(ts: seq<Tree>): (m: nat)
    ensures forall k :: 0 <= k < |ts| ==> m >= MaxNodeTipCount(ts[k])
    ensures ts == [] ==> m == 0
  {
    if ts == [] then 0
    else
      var h, rest := MaxNodeTipCount(ts[0]), MaxCountList(ts[1..]);
      assert forall k :: 1 <= k < |ts| ==> ts[k] == ts[1..][k - 1];
      if rest >= h then rest else h
  }

  lemma {:induction false} MaxCountListAttained(ts: seq<Tree>)
    requires ts != []
    ensures exists k :: 0 <= k < |ts| && MaxCountList(ts) == MaxNodeTipCount(ts[k])
  {
    if MaxCountList(ts) != MaxNodeTipCount(ts[0]) {
      MaxCountListAttained(ts[1..]);
      var j :| 0 <= j < |ts[1..]| && MaxCountList(ts[1..]) == MaxNodeTipCount(ts[1..][j]);
      assert ts[1..][j] == ts[j + 1];
    }
  }

  /** The maximum is reached: some child lies on a path of exactly one node fewer. */
  lemma MaxNodeTipCountAttained(t: Tree)
    requires !IsTip(t)
    ensures exists k :: 0 <= k < |t.children| && MaxNodeTipCount(t) == MaxNodeTipCount(t.children[k]) + 1
  {
    MaxCountListAttained(t.children);
  }

  /**
   * max_node_tip_length: t's own branch length plus the longest summed
   * branch length down to a descendant (0 when there is none, and never
   * below 0, because the source starts its maximum at 0).
   */
  function MaxNodeTipLength(t: Tree): (r: real)
    ensures r - t.branchLength >= 0.0
    ensures forall k :: 0 <= k < |t.children| ==>
      r - t.branchLength >= MaxNodeTipLength(t.children[k])
  {
    MaxLengthList(t.children) + t.branchLength
  }

  function MaxLengthList(ts: seq<Tree>): (m: real)
    ensures m >= 0.0
    ensures forall k :: 0 <= k < |ts| ==> m >= MaxNodeTipLength(ts[k])
  {
    if ts == [] then 0.0
    else
      var h, rest := MaxNodeTipLength(ts[0]), MaxLengthList(ts[1..]);
      assert forall k :: 1 <= k < |ts| ==> ts[k] == ts[1..][k - 1];
      if rest >= h then rest else h
  }

  lemma {:induction false} MaxLengthListAttained(ts: seq<Tree>)
    ensures MaxLengthList(ts) == 0.0 ||
      exists k :: 0 <= k < |ts| && MaxLengthList(ts) == MaxNodeTipLength(ts[k])
  {
    if ts != [] && MaxLengthList(ts) != MaxNodeTipLength(ts[0]) {
      MaxLengthListAttained(ts[1..]);
      if MaxLengthList(ts[1..]) != 0.0 {
        var j :| 0 <= j < |ts[1..]| && MaxLengthList(ts[1..]) == MaxNodeTipLength(ts[1..][j]);
        assert ts[1..][j] == ts[j + 1];
      }
    }
  }

  /** The maximum is reached: by t alone, or through one of its children. */
  lemma MaxNodeTipLengthAttained(t: Tree)
    ensures MaxNodeTipLength(t) == t.branchLength ||
      exists k :: 0 <= k < |t.children| &&
        MaxNodeTipLength(t) == t.branchLength + MaxNodeTipLength(t.children[k])
  {
    MaxLengthListAttained(t.children);
  }

  /** max_node_name: the longest name of t or of any node below it. */
  function MaxNodeName(t: Tree): (r: nat)
    ensures r >= |t.name|
    ensures forall k :: 0 <= k < |t.children| ==> r >= MaxNodeName(t.children[k])
  {
    var m := MaxNameList(t.children);
    if |t.name| >= m then |t.name| else m
  }

  function MaxNameList(ts: seq<Tree>): (m: nat)
    ensures forall k :: 0 <= k < |ts| ==> m >= MaxNodeName(ts[k])
  {
    if ts == [] then 0
    else
      var h, rest := MaxNodeName(ts[0]), MaxNameList(ts[1..]);
      assert forall k :: 1 <= k < |ts| ==> ts[k] == ts[1..][k - 1];
      if rest >= h then rest else h
  }

  lemma {:induction false} MaxNameListAttained(ts: seq<Tree>)
    ensures MaxNameList(ts) == 0 ||
      exists k :: 0 <= k < |ts| && MaxNameList(ts) == MaxNodeName(ts[k])
  {
    if ts != [] && MaxNameList(ts) != MaxNodeName(ts[0]) {
      MaxNameListAttained(ts[1..]);
      if MaxNameList(ts[1..]) != 0 {
        var j :| 0 <= j < |ts[1..]| && MaxNameList(ts[1..]) == MaxNodeName(ts[1..][j]);
        assert ts[1..][j] == ts[j + 1];
      }
    }
  }

  /** The maximum is reached: by t's own name or by one of its children. */
  lemma MaxNodeNameAttained(t: Tree)
    ensures MaxNodeName(t) == |t.name| ||
      exists k :: 0 <= k < |t.children| && MaxNodeName(t) == MaxNodeName(t.children[k])
  {
    MaxNameListAttained(t.children);
  }

  /** No name anywhere in t is longer than MaxNodeName(t). */
  lemma {:induction false} MaxNodeNameBoundsAll(t: Tree, u: Tree)
    requires Occurs(u, t)
    ensures |u.name| <= MaxNodeName(t)
  {
    if u != t {
      var k :| 0 <= k < |t.children| && Occurs(u, t.children[k]);
      MaxNodeNameBoundsAll(t.children[k], u);
    }
  }

  // ---------------------------------------------------------------------
  // Newick serialisation
  // ---------------------------------------------------------------------

  /**
   * newick_recursion: a tip is written as its name, an internal node as its
   * children's texts joined by "," between parentheses (its own name is not
   * written). When a branch-length format is given (the source's non-empty
   * `bl_format`), ":" and the formatted length follow every node; `format`
   * itself is a parameter here.
   */
  function NewickRecursion(t: Tree, blFormat: Option<real -> string>): (r: string)
    ensures !IsTip(t) ==> |r| >= 2 && r[0] == '('
    ensures blFormat.None? && WellNamed(t) ==> ';' !in r
  {
    (if IsTip(t) then t.name else "(" + NewickList(t.children, blFormat) + ")")
    + (match blFormat
       case None => ""
       case Some(format) => ":" + format(t.branchLength))
  }

  /** The texts of a list of siblings, separated by ",". */
  function NewickList(ts: seq<Tree>, blFormat: Option<real -> string>): (r: string)
    ensures blFormat.None? && (forall k :: 0 <= k < |ts| ==> WellNamed(ts[k])) ==> ';' !in r
  {
    if ts == [] then ""
    else if |ts| == 1 then NewickRecursion(ts[0], blFormat)
    else NewickRecursion(ts[0], blFormat) + "," + NewickList(ts[1..], blFormat)
  }

  /** output_newick: the serialised tree followed by ";". */
  function OutputNewick(t: Tree, blFormat: Option<real -> string>): (r: string)
    ensures |r| > 0 && r[|r| - 1] == ';'
    ensures blFormat.None? && WellNamed(t) ==> forall k :: 0 <= k < |r| - 1 ==> r[k] != ';'
  {
    NewickRecursion(t, blFormat) + ";"
  }

  /** A tip name the reader reads back unchanged: none of "(),;" and no ":". */
  predicate IsLabel(s: string) {
    forall k :: 0 <= k < |s| ==> s[k] !in "(),;:"
  }

  /** Every tip of t carries a name that survives serialisation. */
  predicate WellNamed(t: Tree) {
    (IsTip(t) ==> IsLabel(t.name)) &&
    forall k :: 0 <= k < |t.children| ==> WellNamed(t.children[k])
  }

  /**
   * What a tree looks like after serialising it without branch lengths:
   * internal names are dropped and every branch length is the default 1.
   */
  function Shape(t: Tree): Tree
    decreases t, 1
  {
    Tree(if IsTip(t) then t.name else "", 1.0, ShapeList(t.children))
  }

  /** The shapes of a list of siblings, in order. */
  function ShapeList(ts: seq<Tree>): seq<Tree>
    decreases ts, 0
  {
    seq(|ts|, k requires 0 <= k < |ts| => Shape(ts[k]))
  }

  /** Shape keeps the tip names and their order, and the number of nodes. */
  lemma {:induction false} ShapeKeepsTips(t: Tree)
    ensures TipNames(Shape(t)) == TipNames(t)
    ensures Size(Shape(t)) == Size(t)
    decreases t, 1
  {
    ShapeListKeepsTips(t.children);
  }

  lemma {:induction false} ShapeListKeepsTips(ts: seq<Tree>)
    ensures TipNamesList(ShapeList(ts)) == TipNamesList(ts)
    ensures SizeList(ShapeList(ts)) == SizeList(ts)
    decreases ts, 0
  {
    if ts != [] {
      ShapeKeepsTips(ts[0]);
      ShapeListKeepsTips(ts[1..]);
      assert ShapeList(ts)[1..] == ShapeList(ts[1..]);
    }
  }
}
