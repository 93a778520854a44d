/**
 * The `Node` objects of tree_utils.py with their identity: every node is an
 * index into an arena of records holding the node's fields (name, branch
 * length, the back-link to its ancestor, the ordered list of descendants).
 * A `Forest` object owns the arena and changes it the way `Node()`,
 * `add_child` and the property setters change the heap.
 */
module Arena {
  import opened Wrappers
  import opened TreeModel

  /** The fields of one node; `ancestor` and `descendants` hold node indices. */
  datatype NodeRec = NodeRec(name: string, branchLength: real, ancestor: Option<nat>, descendants: seq<nat>)

  /** The errors a topology query reports instead of looping or crashing. */
  datatype TopologyError = NotAnAncestor | NotInSameTree

  /** The fields of a node made by `Node()`. */
  function NewRec(): NodeRec {
    NodeRec("", 1.0, None, [])
  }

  /**
   * The arena is a forest: every ancestor was created before its child (so
   * following ancestors always ends), the descendant lists and the ancestor
   * links agree.
   */
  ghost predicate WellFormed(a: seq<NodeRec>) {
    (forall i :: 0 <= i < |a| && a[i].ancestor.Some? ==> a[i].ancestor.value < i) &&
    (forall i, k :: 0 <= i < |a| && 0 <= k < |a[i].descendants| ==>
       i < a[i].descendants[k] < |a| && a[a[i].descendants[k]].ancestor == Some(i)) &&
    (forall c :: 0 <= c < |a| && a[c].ancestor.Some? ==> c in a[a[c].ancestor.value].descendants)
  }

  /** Node i and everything below it, as a value. */
  function Build(a: seq<NodeRec>, i: nat): (t: Tree)
    requires WellFormed(a) && i < |a|
    ensures t.name == a[i].name && t.branchLength == a[i].branchLength
    ensures |t.children| == |a[i].descendants|
    ensures forall k :: 0 <= k < |t.children| ==> t.children[k] == Build(a, a[i].descendants[k])
    decreases |a| - i
  {
    var ks := a[i].descendants;
    Tree(a[i].name, a[i].branchLength, seq(|ks|, k requires 0 <= k < |ks| => Build(a, ks[k])))
  }

  /**
   * The subtrees rooted at any list of nodes, in list order; FrameAt applies
   * it to a proper prefix of a node's descendants, which is not a Build.
   */
  function Subtrees(a: seq<NodeRec>, ks: seq<nat>): (ts: seq<Tree>)
    requires WellFormed(a) && forall k :: 0 <= k < |ks| ==> ks[k] < |a|
    ensures |ts| == |ks| && forall k :: 0 <= k < |ks| ==> ts[k] == Build(a, ks[k])
  {
    seq(|ks|, k requires 0 <= k < |ks| => Build(a, ks[k]))
  }

  // ---------------------------------------------------------------------
  // Ancestor chains
  // ---------------------------------------------------------------------

  /** x is i itself or lies on the chain of ancestors of i. */
  ghost predicate AncestorOrSelf(a: seq<NodeRec>, x: nat, i: nat)
    requires WellFormed(a) && i < |a|
    decreases i
  {
    x == i || (a[i].ancestor.Some? && AncestorOrSelf(a, x, a[i].ancestor.value))
  }

  lemma {:induction false} AncestorOrSelfBelow(a: seq<NodeRec>, x: nat, i: nat)
    requires WellFormed(a) && i < |a| && AncestorOrSelf(a, x, i)
    ensures x <= i
    decreases i
  {
    if x != i {
      AncestorOrSelfBelow(a, x, a[i].ancestor.value);
    }
  }

  lemma {:induction false} AncestorOrSelfTransitive(a: seq<NodeRec>, x: nat, y: nat, i: nat)
    requires WellFormed(a) && i < |a| && y < |a|
    requires AncestorOrSelf(a, x, y) && AncestorOrSelf(a, y, i)
    ensures AncestorOrSelf(a, x, i)
    decreases i
  {
    if y != i {
      AncestorOrSelfTransitive(a, x, y, a[i].ancestor.value);
    }
  }

  /** Two nodes on the ancestor chain of i are themselves on one chain. */
  lemma {:induction false} AncestorsAreOrdered(a: seq<NodeRec>, x: nat, y: nat, i: nat)
    requires WellFormed(a) && i < |a|
    requires AncestorOrSelf(a, x, i) && AncestorOrSelf(a, y, i) && x <= y
    ensures y < |a| && AncestorOrSelf(a, x, y)
    decreases i
  {
    AncestorOrSelfBelow(a, y, i);
    if y != i {
      AncestorsAreOrdered(a, x, y, a[i].ancestor.value);
    }
  }

  /** root: follow the ancestor links from i to the node that has none. */
  function Root(a: seq<NodeRec>, i: nat): (r: nat)
    requires WellFormed(a) && i < |a|
    ensures r <= i && a[r].ancestor.None?
    ensures AncestorOrSelf(a, r, i)
    decreases i
  {
    match a[i].ancestor
    case None => i
    case Some(p) => Root(a, p)
  }

  /** Every node above i has the same root as i. */
  lemma {:induction false} RootOfAncestor(a: seq<NodeRec>, x: nat, i: nat)
    requires WellFormed(a) && i < |a| && AncestorOrSelf(a, x, i)
    ensures x < |a| && Root(a, x) == Root(a, i)
    decreases i
  {
    AncestorOrSelfBelow(a, x, i);
    if x != i {
      RootOfAncestor(a, x, a[i].ancestor.value);
    }
  }

  /** The tree of node i holds the subtree of every node at or below i. */
  lemma {:induction false} BuildHasBelow(a: seq<NodeRec>, i: nat, x: nat)
    requires WellFormed(a) && x < |a| && AncestorOrSelf(a, i, x)
    ensures i < |a| && Occurs(Build(a, x), Build(a, i))
    decreases x
  {
    AncestorOrSelfBelow(a, i, x);
    if x != i {
      var p := a[x].ancestor.value;
      BuildHasBelow(a, i, p);
      var k :| 0 <= k < |a[p].descendants| && a[p].descendants[k] == x;
      assert Build(a, p).children[k] == Build(a, x);
      OccursTransitive(Build(a, x), Build(a, p), Build(a, i));
    }
  }

  /** ... and nothing else: every subtree in it is the tree of a node at or below i. */
  lemma {:induction false} BuildOnlyBelow(a: seq<NodeRec>, i: nat, u: Tree)
    requires WellFormed(a) && i < |a| && Occurs(u, Build(a, i))
    ensures exists x: nat :: x < |a| && AncestorOrSelf(a, i, x) && u == Build(a, x)
    decreases |a| - i
  {
    if u != Build(a, i) {
      var t := Build(a, i);
      var k :| 0 <= k < |t.children| && Occurs(u, t.children[k]);
      var c := a[i].descendants[k];
      BuildOnlyBelow(a, c, u);
      var x: nat :| x < |a| && AncestorOrSelf(a, c, x) && u == Build(a, x);
      assert AncestorOrSelf(a, i, c);
      AncestorOrSelfTransitive(a, i, c, x);
    }
  }

  // ---------------------------------------------------------------------
  // is_descendant and is_sibling
  // ---------------------------------------------------------------------

  /** is_descendant: q is one of i's descendants or lies below one of them. */
  function IsDescendant(a: seq<NodeRec>, i: nat, q: nat): (r: bool)
    requires WellFormed(a) && i < |a|
    ensures r ==> i < q
    decreases |a| - i
  {
    var ks := a[i].descendants;
    exists k :: 0 <= k < |ks| && (ks[k] == q || IsDescendant(a, ks[k], q))
  }

  /** x lies strictly above q. */
  ghost predicate StrictlyAbove(a: seq<NodeRec>, x: nat, q: nat)
    requires WellFormed(a) && q < |a|
  {
    a[q].ancestor.Some? && AncestorOrSelf(a, x, a[q].ancestor.value)
  }

  lemma {:induction false} DescendantExtends(a: seq<NodeRec>, i: nat, p: nat, q: nat)
    requires WellFormed(a) && i < |a| && p < |a| && q < |a|
    requires IsDescendant(a, i, p) && a[q].ancestor == Some(p)
    ensures IsDescendant(a, i, q)
    decreases |a| - i
  {
    var ks := a[i].descendants;
    var k :| 0 <= k < |ks| && (ks[k] == p || IsDescendant(a, ks[k], p));
    if ks[k] == p {
      var j :| 0 <= j < |a[p].descendants| && a[p].descendants[j] == q;
      assert IsDescendant(a, ks[k], q);
    } else {
      DescendantExtends(a, ks[k], p, q);
    }
  }

  lemma {:induction false} DescendantIsBelow(a: seq<NodeRec>, i: nat, q: nat)
    requires WellFormed(a) && i < |a| && q < |a| && IsDescendant(a, i, q)
    ensures StrictlyAbove(a, i, q)
    decreases |a| - i
  {
    var ks := a[i].descendants;
    var k :| 0 <= k < |ks| && (ks[k] == q || IsDescendant(a, ks[k], q));
    if ks[k] != q {
      DescendantIsBelow(a, ks[k], q);
      AncestorOrSelfTransitive(a, i, ks[k], a[q].ancestor.value);
    }
  }

  lemma {:induction false} BelowIsDescendant(a: seq<NodeRec>, i: nat, q: nat)
    requires WellFormed(a) && i < |a| && q < |a| && StrictlyAbove(a, i, q)
    ensures IsDescendant(a, i, q)
    decreases q
  {
    var p := a[q].ancestor.value;
    if p == i {
      var j :| 0 <= j < |a[i].descendants| && a[i].descendants[j] == q;
    } else {
      BelowIsDescendant(a, i, p);
      DescendantExtends(a, i, p, q);
    }
  }

  /** is_descendant(q) holds exactly when q lies strictly below i. */
  lemma IsDescendantIffBelow(a: seq<NodeRec>, i: nat, q: nat)
    requires WellFormed(a) && i < |a| && q < |a|
    ensures IsDescendant(a, i, q) <==> StrictlyAbove(a, i, q)
  {
    if IsDescendant(a, i, q) {
      DescendantIsBelow(a, i, q);
    }
    if StrictlyAbove(a, i, q) {
      BelowIsDescendant(a, i, q);
    }
  }

  /** A node is never its own descendant. */
  lemma NotOwnDescendant(a: seq<NodeRec>, i: nat)
    requires WellFormed(a) && i < |a|
    ensures !IsDescendant(a, i, i)
  {
  }

  /**
   * is_sibling: q is listed under i's ancestor. Only defined for a node that
   * has an ancestor (the source dereferences a missing one).
   */
  function IsSibling(a: seq<NodeRec>, i: nat, q: nat): (r: bool)
    requires WellFormed(a) && i < |a| && q < |a| && a[i].ancestor.Some?
    ensures r <==> a[q].ancestor == a[i].ancestor
  {
    q in a[a[i].ancestor.value].descendants
  }

  // ---------------------------------------------------------------------
  // Distances and common ancestors
  // ---------------------------------------------------------------------

  /** The summed branch lengths from i up to, but excluding, its ancestor x. */
  ghost function PathLength(a: seq<NodeRec>, i: nat, x: nat): real
    requires WellFormed(a) && i < |a| && AncestorOrSelf(a, x, i)
    decreases i
  {
    if x == i then 0.0 else a[i].branchLength + PathLength(a, a[i].ancestor.value, x)
  }

  /** Walking up in two stages sums to walking up in one. */
  lemma {:induction false} PathLengthSplit(a: seq<NodeRec>, i: nat, y: nat, x: nat)
    requires WellFormed(a) && i < |a| && y < |a|
    requires AncestorOrSelf(a, y, i) && AncestorOrSelf(a, x, y)
    ensures AncestorOrSelf(a, x, i)
    ensures PathLength(a, i, x) == PathLength(a, i, y) + PathLength(a, y, x)
    decreases i
  {
    AncestorOrSelfTransitive(a, x, y, i);
    if y != i {
      var p := a[i].ancestor.value;
      PathLengthSplit(a, p, y, x);
      AncestorOrSelfBelow(a, x, y);
      AncestorOrSelfBelow(a, y, i);
    }
  }

  /** m lies on the ancestor chains of both i and q. */
  ghost predicate IsCommonAncestor(a: seq<NodeRec>, m: nat, i: nat, q: nat)
    requires WellFormed(a) && i < |a| && q < |a|
  {
    AncestorOrSelf(a, m, i) && AncestorOrSelf(a, m, q)
  }

  /** The first node on i's ancestor chain that also lies above q, if any. */
  ghost function Lca(a: seq<NodeRec>, i: nat, q: nat): Option<nat>
    requires WellFormed(a) && i < |a| && q < |a|
    decreases i
  {
    if AncestorOrSelf(a, i, q) then Some(i)
    else match a[i].ancestor
      case None => None
      case Some(p) => Lca(a, p, q)
  }

  lemma {:induction false} LcaBelowEveryCommon(a: seq<NodeRec>, i: nat, q: nat, m: nat)
    requires WellFormed(a) && i < |a| && q < |a| && IsCommonAncestor(a, m, i, q)
    ensures Lca(a, i, q).Some?
    ensures Lca(a, i, q).value < |a| && AncestorOrSelf(a, m, Lca(a, i, q).value)
    decreases i
  {
    if !AncestorOrSelf(a, i, q) {
      assert m != i;
      LcaBelowEveryCommon(a, a[i].ancestor.value, q, m);
    }
  }

  lemma {:induction false} LcaIsCommon(a: seq<NodeRec>, i: nat, q: nat)
    requires WellFormed(a) && i < |a| && q < |a| && Lca(a, i, q).Some?
    ensures Lca(a, i, q).value < |a| && IsCommonAncestor(a, Lca(a, i, q).value, i, q)
    decreases i
  {
    if !AncestorOrSelf(a, i, q) {
      var p := a[i].ancestor.value;
      LcaIsCommon(a, p, q);
    }
  }

  /**
   * common_ancestor, as documented: the lowest node above (or equal to) both
   * i and q. It exists exactly when the two nodes share a root.
   */
  lemma LcaIsLowestCommonAncestor(a: seq<NodeRec>, i: nat, q: nat)
    requires WellFormed(a) && i < |a| && q < |a|
    ensures Lca(a, i, q).Some? <==> Root(a, i) == Root(a, q)
    ensures Lca(a, i, q).Some? ==>
      Lca(a, i, q).value < |a| && IsCommonAncestor(a, Lca(a, i, q).value, i, q) &&
      forall m :: IsCommonAncestor(a, m, i, q) ==> AncestorOrSelf(a, m, Lca(a, i, q).value)
  {
    if Root(a, i) == Root(a, q) {
      LcaBelowEveryCommon(a, i, q, Root(a, i));
    }
    if Lca(a, i, q).Some? {
      var m := Lca(a, i, q).value;
      LcaIsCommon(a, i, q);
      RootOfAncestor(a, m, i);
      RootOfAncestor(a, m, q);
      forall m' | IsCommonAncestor(a, m', i, q) ensures AncestorOrSelf(a, m', m) {
        LcaBelowEveryCommon(a, i, q, m');
      }
    }
  }

  /** The lowest common ancestor does not depend on the order of the query. */
  lemma LcaSymmetric(a: seq<NodeRec>, i: nat, q: nat)
    requires WellFormed(a) && i < |a| && q < |a|
    ensures Lca(a, i, q) == Lca(a, q, i)
  {
    LcaIsLowestCommonAncestor(a, i, q);
    LcaIsLowestCommonAncestor(a, q, i);
    if Lca(a, i, q).Some? {
      var m, n := Lca(a, i, q).value, Lca(a, q, i).value;
      assert IsCommonAncestor(a, n, i, q);
      assert IsCommonAncestor(a, m, q, i);
      AncestorOrSelfBelow(a, m, n);
      AncestorOrSelfBelow(a, n, m);
    }
  }

  /** distance_on_tree, as documented: the branch lengths from both nodes up to their lowest common ancestor. */
  ghost function TreeDistance(a: seq<NodeRec>, i: nat, q: nat): Option<real>
    requires WellFormed(a) && i < |a| && q < |a|
  {
    match Lca(a, i, q)
    case None => None
    case Some(m) =>
      LcaIsCommon(a, i, q);
      Some(PathLength(a, i, m) + PathLength(a, q, m))
  }

  /** The distance between two nodes is symmetric, and a node is at distance 0 from itself. */
  lemma TreeDistanceSymmetric(a: seq<NodeRec>, i: nat, q: nat)
    requires WellFormed(a) && i < |a| && q < |a|
    ensures TreeDistance(a, i, q) == TreeDistance(a, q, i)
    ensures TreeDistance(a, i, i) == Some(0.0)
  {
    LcaSymmetric(a, i, q);
  }

  // ---------------------------------------------------------------------
  // The mutable arena
  // ---------------------------------------------------------------------

  /** The arena after `add_child`: c is appended to p's descendants and its ancestor becomes p. */
  function Attach(a: seq<NodeRec>, p: nat, c: nat): seq<NodeRec>
    requires p < |a| && c < |a|
  {
    a[p := a[p].(descendants := a[p].descendants + [c])][c := a[c].(ancestor := Some(p))]
  }

  /**
   * add_child: c becomes the last of p's descendants after the earlier ones,
   * p becomes c's ancestor, and every other field of every node is kept.
   */
  lemma AttachAppends(a: seq<NodeRec>, p: nat, c: nat)
    requires p < |a| && c < |a| && p != c
    ensures var b := Attach(a, p, c);
      && |b| == |a|
      && b[p].descendants[..|a[p].descendants|] == a[p].descendants
      && |b[p].descendants| == |a[p].descendants| + 1
      && b[p].descendants[|a[p].descendants|] == c
      && b[p] == a[p].(descendants := b[p].descendants)
      && b[c] == a[c].(ancestor := Some(p))
      && forall y :: 0 <= y < |a| && y != p && y != c ==> b[y] == a[y]
  {
    var b := Attach(a, p, c);
    assert b[p].descendants == a[p].descendants + [c];
  }

  lemma AttachKeepsWellFormed(a: seq<NodeRec>, p: nat, c: nat)
    requires WellFormed(a) && p < c < |a| && a[c].ancestor.None?
    ensures WellFormed(Attach(a, p, c))
  {
    var b := Attach(a, p, c);
    forall i, k | 0 <= i < |b| && 0 <= k < |b[i].descendants|
      ensures i < b[i].descendants[k] < |b| && b[b[i].descendants[k]].ancestor == Some(i)
    {
      if i == p && k == |a[p].descendants| {
        assert b[i].descendants[k] == c;
      } else {
        assert b[i].descendants[k] == a[i].descendants[k];
      }
    }
    forall x | 0 <= x < |b| && b[x].ancestor.Some?
      ensures x in b[b[x].ancestor.value].descendants
    {
      if x != c {
        var y := a[x].ancestor.value;
        var j :| 0 <= j < |a[y].descendants| && a[y].descendants[j] == x;
        assert b[y].descendants[j] == x;
      } else {
        assert b[p].descendants[|a[p].descendants|] == c;
      }
    }
  }

  // ---------------------------------------------------------------------
  // common_ancestor as written
  // ---------------------------------------------------------------------

  /**
   * The climb of common_ancestor as written (its misspelt call read as
   * is_descendant): from c upwards, the first node that has q strictly below
   * it; passing the root is reported as NotInSameTree.
   */
  function ClimbAsWritten(a: seq<NodeRec>, c: nat, q: nat): (r: Result<nat, TopologyError>)
    requires WellFormed(a) && c < |a|
    ensures r.Ok? ==> r.value <= c && AncestorOrSelf(a, r.value, c) && IsDescendant(a, r.value, q)
    ensures r.Err? ==> r.error == NotInSameTree
    decreases c
  {
    if IsDescendant(a, c, q) then Ok(c)
    else match a[c].ancestor
      case None => Err(NotInSameTree)
      case Some(p) => ClimbAsWritten(a, p, q)
  }

  /** common_ancestor as written: q when q lies above i, otherwise the climb from i. */
  function CommonAncestorAsWritten(a: seq<NodeRec>, i: nat, q: nat): (r: Result<nat, TopologyError>)
    requires WellFormed(a) && i < |a| && q < |a|
    ensures r.Ok? ==> r.value < |a| && IsCommonAncestor(a, r.value, i, q)
    ensures r.Err? ==> r.error == NotInSameTree
  {
    if IsDescendant(a, q, i) then
      DescendantIsBelow(a, q, i);
      Ok(q)
    else
      var r := ClimbAsWritten(a, i, q);
      if r.Ok? then
        DescendantIsBelow(a, r.value, q);
        r
      else r
  }

  /** The answer Lca gives, in the form common_ancestor reports it. */
  ghost function LcaResult(a: seq<NodeRec>, i: nat, q: nat): Result<nat, TopologyError>
    requires WellFormed(a) && i < |a| && q < |a|
  {
    match Lca(a, i, q)
    case Some(m) => Ok(m)
    case None => Err(NotInSameTree)
  }

  /** Climbing from a node that q does not lie above finds the lowest common ancestor. */
  lemma {:induction false} ClimbFindsLca(a: seq<NodeRec>, c: nat, q: nat)
    requires WellFormed(a) && c < |a| && q < |a| && !AncestorOrSelf(a, q, c)
    ensures ClimbAsWritten(a, c, q) == LcaResult(a, c, q)
    decreases c
  {
    IsDescendantIffBelow(a, c, q);
    if !IsDescendant(a, c, q) {
      assert !AncestorOrSelf(a, c, q);
      match a[c].ancestor {
        case None =>
        case Some(p) => ClimbFindsLca(a, p, q);
      }
    }
  }

  /** For two different nodes, common_ancestor as written finds the lowest common ancestor. */
  lemma CommonAncestorAsWrittenAgrees(a: seq<NodeRec>, i: nat, q: nat)
    requires WellFormed(a) && i < |a| && q < |a| && i != q
    ensures CommonAncestorAsWritten(a, i, q) == LcaResult(a, i, q)
  {
    IsDescendantIffBelow(a, q, i);
    if IsDescendant(a, q, i) {
      LcaOfAncestor(a, i, q);
    } else {
      ClimbFindsLca(a, i, q);
    }
  }

  /**
   * For a node and itself, common_ancestor as written passes the node (it is
   * not its own descendant) and answers its ancestor, where the lowest common
   * ancestor is the node itself.
   */
  lemma CommonAncestorOfItselfAsWritten(a: seq<NodeRec>, i: nat)
    requires WellFormed(a) && i < |a|
    ensures Lca(a, i, i) == Some(i)
    ensures CommonAncestorAsWritten(a, i, i) != Ok(i)
    ensures a[i].ancestor.Some? ==> CommonAncestorAsWritten(a, i, i) == Ok(a[i].ancestor.value)
  {
    assert AncestorOrSelf(a, i, i);
    NotOwnDescendant(a, i);
    var r := ClimbAsWritten(a, i, i);
    assert CommonAncestorAsWritten(a, i, i) == r;
    match a[i].ancestor
    case None =>
      assert r == Err(NotInSameTree);
    case Some(p) =>
      ParentHasChild(a, i);
      assert r == ClimbAsWritten(a, p, i) == Ok(p);
  }

  /** A node's ancestor has it as a descendant. */
  lemma ParentHasChild(a: seq<NodeRec>, i: nat)
    requires WellFormed(a) && i < |a| && a[i].ancestor.Some?
    ensures a[i].ancestor.value < |a| && IsDescendant(a, a[i].ancestor.value, i)
  {
    var p := a[i].ancestor.value;
    var k :| 0 <= k < |a[p].descendants| && a[p].descendants[k] == i;
  }

  /** The set of all `Node` objects, with the operations that change them. */
  class Forest {
    var nodes: seq<NodeRec>

    ghost predicate Valid()
      reads this
    {
      WellFormed(nodes)
    }

    constructor ()
      ensures Valid() && nodes == []
    {
      nodes := [];
    }

    /** `Node()`: a new node with an empty name, branch length 1 and no links. */
    method NewNode() returns (n: nat)
      requires Valid()
      modifies this
      ensures Valid()
      ensures n == |old(nodes)| && nodes == old(nodes) + [NewRec()]
    {
      n := |nodes|;
      nodes := nodes + [NewRec()];
    }

    /**
     * `add_child`: appends c to p's descendants and makes p its ancestor.
     * A node that already has an ancestor is refused and nothing changes.
     */
    method AddChild(p: nat, c: nat) returns (attached: bool)
      requires Valid() && p < c < |nodes|
      modifies this
      ensures Valid()
      ensures attached == old(nodes)[c].ancestor.None?
      ensures nodes == if attached then Attach(old(nodes), p, c) else old(nodes)
    {
      attached := nodes[c].ancestor.None?;
      if attached {
        AttachKeepsWellFormed(nodes, p, c);
        nodes := Attach(nodes, p, c);
      }
    }

    /** The `name` setter. */
    method SetName(i: nat, name: string)
      requires Valid() && i < |nodes|
      modifies this
      ensures Valid()
      ensures nodes == old(nodes)[i := old(nodes)[i].(name := name)]
    {
      nodes := nodes[i := nodes[i].(name := name)];
    }

    /** The `branch_length` setter. */
    method SetBranchLength(i: nat, length: real)
      requires Valid() && i < |nodes|
      modifies this
      ensures Valid()
      ensures nodes == old(nodes)[i := old(nodes)[i].(branchLength := length)]
    {
      nodes := nodes[i := nodes[i].(branchLength := length)];
    }

    /**
     * distance_to_ancestor: walks up from i summing branch lengths until it
     * meets q; reports NotAnAncestor when it passes the root instead.
     */
    method DistanceToAncestor(i: nat, q: nat) returns (r: Result<real, TopologyError>)
      requires Valid() && i < |nodes| && q < |nodes|
      ensures r.Ok? <==> AncestorOrSelf(nodes, q, i)
      ensures r.Ok? ==> r.value == PathLength(nodes, i, q)
      ensures r.Err? ==> r.error == NotAnAncestor
    {
      var distance := 0.0;
      var current: nat := i;
      while current != q
        invariant current < |nodes| && AncestorOrSelf(nodes, current, i)
        invariant AncestorOrSelf(nodes, q, i) <==> AncestorOrSelf(nodes, q, current)
        invariant AncestorOrSelf(nodes, q, current) ==>
          PathLength(nodes, i, q) == distance + PathLength(nodes, current, q)
        decreases current
      {
        match nodes[current].ancestor {
          case None =>
            return Err(NotAnAncestor);
          case Some(p) =>
            distance := distance + nodes[current].branchLength;
            AncestorOrSelfTransitive(nodes, p, current, i);
            if AncestorOrSelf(nodes, q, current) {
              PathLengthSplit(nodes, i, current, q);
              PathLengthSplit(nodes, i, p, q);
            }
            current := p;
        }
      }
      return Ok(distance);
    }

    /**
     * common_ancestor: q itself when it lies above i, otherwise the first
     * node on i's ancestor chain that is q or has q below it; NotInSameTree
     * when the walk passes the root.
     */
    method CommonAncestor(i: nat, q: nat) returns (r: Result<nat, TopologyError>)
      requires Valid() && i < |nodes| && q < |nodes|
      ensures r.Ok? <==> Lca(nodes, i, q).Some?
      ensures r.Ok? ==> r.value == Lca(nodes, i, q).value
      ensures r.Err? ==> r.error == NotInSameTree
    {
      if IsDescendant(nodes, q, i) {
        DescendantIsBelow(nodes, q, i);
        LcaOfAncestor(nodes, i, q);
        return Ok(q);
      }
      var current: nat := i;
      while !(current == q || IsDescendant(nodes, current, q))
        invariant current < |nodes| && Lca(nodes, current, q) == Lca(nodes, i, q)
        decreases current
      {
        IsDescendantIffBelow(nodes, current, q);
        match nodes[current].ancestor {
          case None =>
            return Err(NotInSameTree);
          case Some(p) =>
            current := p;
        }
      }
      IsDescendantIffBelow(nodes, current, q);
      return Ok(current);
    }

    /**
     * distance_on_tree: the branch lengths separating i and q, through
     * their lowest common ancestor; NotInSameTree when there is none.
     */
    method DistanceOnTree(i: nat, q: nat) returns (r: Result<real, TopologyError>)
      requires Valid() && i < |nodes| && q < |nodes|
      ensures r.Ok? <==> TreeDistance(nodes, i, q).Some?
      ensures r.Ok? ==> r.value == TreeDistance(nodes, i, q).value
    {
      LcaIsLowestCommonAncestor(nodes, i, q);
      if IsDescendant(nodes, i, q) {
        DescendantIsBelow(nodes, i, q);
        LcaOfAncestor(nodes, q, i);
        r := DistanceToAncestor(q, i);
      } else if IsDescendant(nodes, q, i) {
        DescendantIsBelow(nodes, q, i);
        LcaSymmetric(nodes, i, q);
        LcaOfAncestor(nodes, i, q);
        r := DistanceToAncestor(i, q);
      } else {
        var common := CommonAncestor(i, q);
        if common.Err? {
          return Err(common.error);
        }
        LcaIsCommon(nodes, i, q);
        var d1 := DistanceToAncestor(i, common.value);
        var d2 := DistanceToAncestor(q, common.value);
        r := Ok(d1.value + d2.value);
      }
    }
  }

  /** When x lies strictly above i, the lowest common ancestor of i and x is x. */
  lemma LcaOfAncestor(a: seq<NodeRec>, i: nat, x: nat)
    requires WellFormed(a) && i < |a| && x < |a| && StrictlyAbove(a, x, i)
    ensures Lca(a, i, x) == Some(x) && Lca(a, x, i) == Some(x)
    ensures TreeDistance(a, x, i) == Some(PathLength(a, i, x))
  {
    assert AncestorOrSelf(a, x, i);
    LcaIsLowestCommonAncestor(a, i, x);
    var m := Lca(a, i, x).value;
    AncestorOrSelfBelow(a, m, x);
    AncestorOrSelfBelow(a, m, i);
    AncestorsAreOrdered(a, m, x, i);
    AncestorOrSelfBelow(a, x, m);
    LcaSymmetric(a, i, x);
  }
}
