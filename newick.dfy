/**
 * `read_newick_tree` of tree_utils.py: one left-to-right scan that moves a
 * "current node" cursor. "(" creates a child of the cursor and descends into
 * it, "," climbs to the ancestor and creates a sibling, ")" climbs (and does
 * nothing at the root), and any other run of characters up to the next of
 * "(),;" is a `name`, `:length` or `name:length` label for the cursor. The
 * scan stops at ";" and returns the root.
 *
 * `Parse` states the scan over a zipper (the cursor's subtree and, for each
 * node above it, that node's fields and its finished children). The method
 * `ReadNewickTree` performs the scan the way the source does, over `Node`
 * objects in a `Forest`, and is proved to compute `Parse`.
 */
module Newick {
  import opened Wrappers
  import opened TreeModel
  import opened Arena
  import opened Decimal

  /** Why a text is not read as a tree. */
  datatype ParseError =
    | MissingTerminator     // the text ends before a ";" is met
    | CommaAtRoot           // "," while the cursor is at the root
    | TooManyColons         // a label that is not split into exactly two parts by ":"
    | BadBranchLength       // branch-length text that is not a decimal literal

  /** The characters that end a label: one of "(),;". */
  predicate IsSymbol(c: char) {
    c == '(' || c == ')' || c == ',' || c == ';'
  }

  // ---------------------------------------------------------------------
  // Labels
  // ---------------------------------------------------------------------

  /** What a label run assigns to the cursor node. */
  datatype Label = NameOnly(name: string) | LengthOnly(length: real) | NameAndLength(name: string, length: real)

  /** Reads a label run the way the three branches of the source do. */
  function ReadLabel(run: string): (r: Result<Label, ParseError>)
    requires |run| > 0
    ensures ':' !in run ==> r == Ok(NameOnly(run))
    ensures ':' in run ==> !(r.Ok? && r.value.NameOnly?)
  {
    if ':' !in run then Ok(NameOnly(run))
    else if run[0] == ':' then ReadLength(run[1..])
    else
      IndexOfAnyFirst(run, ":");
      var colon := IndexOfAny(run, ":");
      ReadNameAndLength(run[..colon], run[colon + 1..])
  }

  /** The text after a leading ":", read as a branch length. */
  function ReadLength(text: string): Result<Label, ParseError> {
    match ParseDecimal(Strip(text))
    case None => Err(BadBranchLength)
    case Some(length) => Ok(LengthOnly(length))
  }

  /** A name and the text after its first ":", which must hold no other ":". */
  function ReadNameAndLength(name: string, text: string): Result<Label, ParseError> {
    if ':' in text then Err(TooManyColons)
    else match ParseDecimal(Strip(text))
      case None => Err(BadBranchLength)
      case Some(length) => Ok(NameAndLength(name, length))
  }

  /** ":" followed by a length sets the length alone. */
  lemma ReadLengthLabel(digits: string)
    requires |digits| > 0 && AllDigits(digits)
    ensures ReadLabel(":" + digits) == Ok(LengthOnly(DigitsValue(digits) as real))
  {
    var run := ":" + digits;
    assert run[1..] == digits;
    assert ReadLabel(run) == ReadLength(digits);
    assert forall k :: 0 <= k < |digits| ==> IsDigit(digits[k]);
    assert Strip(digits) == digits;
    ParseDecimalOfDigits(digits);
  }

  /** A name, one ":" and a length set both; the name is the text before the colon. */
  lemma ReadNameAndLengthLabel(name: string, digits: string)
    requires |name| > 0 && ':' !in name && |digits| > 0 && AllDigits(digits)
    ensures ReadLabel(name + ":" + digits) == Ok(NameAndLength(name, DigitsValue(digits) as real))
  {
    var run := name + ":" + digits;
    FirstColon(name, digits);
    assert run[..|name|] == name && run[|name| + 1..] == digits;
    assert ReadLabel(run) == ReadNameAndLength(name, digits);
    NameAndDigits(name, digits);
  }

  /** After the name's colon, a run of digits is the length. */
  lemma NameAndDigits(name: string, digits: string)
    requires |digits| > 0 && AllDigits(digits)
    ensures ReadNameAndLength(name, digits) == Ok(NameAndLength(name, DigitsValue(digits) as real))
  {
    assert ':' !in digits && Strip(digits) == digits by {
      assert forall k :: 0 <= k < |digits| ==> IsDigit(digits[k]);
    }
    ParseDecimalOfDigits(digits);
  }

  /** The first colon of name + ":" + rest is the one after the name. */
  lemma FirstColon(name: string, rest: string)
    requires |name| > 0 && ':' !in name
    ensures var run := name + ":" + rest; run[0] != ':' && IndexOfAny(run, ":") == |name|
  {
    var run := name + ":" + rest;
    assert run[|name|] == ':' && run[0] == name[0];
    assert forall k :: 0 <= k < |name| ==> run[k] == name[k];
    IndexOfAnyFirst(run, ":");
  }

  /** A label with a name and two or more colons is refused. */
  lemma ReadTwoColonsLabel(name: string, rest: string)
    requires |name| > 0 && ':' !in name && ':' in rest
    ensures ReadLabel(name + ":" + rest) == Err(TooManyColons)
  {
    var run := name + ":" + rest;
    FirstColon(name, rest);
    assert run[|name| + 1..] == rest;
    assert ReadLabel(run) == ReadNameAndLength(name, rest);
  }

  // ---------------------------------------------------------------------
  // The scan over a zipper
  // ---------------------------------------------------------------------

  /** A node above the cursor: its fields and its children left of the cursor's path. */
  datatype Frame = Frame(name: string, branchLength: real, left: seq<Tree>)

  /** The cursor's subtree, and the frames from the root down to the cursor's ancestor. */
  datatype Cursor = Cursor(focus: Tree, context: seq<Frame>)

  function Start(): Cursor {
    Cursor(Fresh(), [])
  }

  /** "(": a new child of the cursor becomes the cursor. */
  function Open(z: Cursor): Cursor {
    Cursor(Fresh(), z.context + [Frame(z.focus.name, z.focus.branchLength, z.focus.children)])
  }

  /** ",": a new sibling of the cursor becomes the cursor; impossible at the root. */
  function Sibling(z: Cursor): Option<Cursor> {
    if z.context == [] then None
    else
      var f := z.context[|z.context| - 1];
      Some(Cursor(Fresh(), z.context[..|z.context| - 1] + [Frame(f.name, f.branchLength, f.left + [z.focus])]))
  }

  /** ")": the cursor's ancestor becomes the cursor; nothing happens at the root. */
  function Up(z: Cursor): Cursor {
    if z.context == [] then z
    else
      var f := z.context[|z.context| - 1];
      Cursor(Tree(f.name, f.branchLength, f.left + [z.focus]), z.context[..|z.context| - 1])
  }

  /** A label sets the cursor's name, its branch length, or both. */
  function Relabel(z: Cursor, l: Label): Cursor {
    var t := z.focus;
    match l
    case NameOnly(n) => Cursor(Tree(n, t.branchLength, t.children), z.context)
    case LengthOnly(x) => Cursor(Tree(t.name, x, t.children), z.context)
    case NameAndLength(n, x) => Cursor(Tree(n, x, t.children), z.context)
  }

  /** The whole tree: the root reached by climbing from the cursor. */
  function Close(z: Cursor): Tree
    decreases |z.context|
  {
    if z.context == [] then z.focus else Close(Up(z))
  }

  /** The rest of the scan from position i with the cursor at z. */
  function Scan(s: string, i: nat, z: Cursor): Result<Tree, ParseError>
    requires i <= |s|
    decreases |s| - i, |s| - i + 2
  {
    if i == |s| then Err(MissingTerminator)
    else if s[i] == ';' then Ok(Close(z))
    else if s[i] == '(' then Scan(s, i + 1, Open(z))
    else if s[i] == ',' then
      match Sibling(z)
      case None => Err(CommaAtRoot)
      case Some(z') => Scan(s, i + 1, z')
    else if s[i] == ')' then Scan(s, i + 1, Up(z))
    else ScanRun(s, i, i, z)
  }

  /**
   * The scan inside the label run that starts at i, having reached j: the
   * run ends at the next of "(),;", and its text then labels the cursor.
   */
  function ScanRun(s: string, i: nat, j: nat, z: Cursor): Result<Tree, ParseError>
    requires i < |s| && !IsSymbol(s[i]) && i <= j <= |s|
    requires forall k :: i <= k < j ==> !IsSymbol(s[k])
    decreases |s| - i, |s| - j
  {
    if j < |s| && !IsSymbol(s[j]) then ScanRun(s, i, j + 1, z)
    else if j == |s| then Err(MissingTerminator)
    else ScanLabel(s, i, j, z)
  }

  /** The label run s[i..j] has been read off; its label is applied and the scan goes on from j. */
  function ScanLabel(s: string, i: nat, j: nat, z: Cursor): Result<Tree, ParseError>
    requires i < j <= |s|
    decreases |s| - i, 0
  {
    match ReadLabel(s[i..j])
    case Err(e) => Err(e)
    case Ok(l) => Scan(s, j, Relabel(z, l))
  }

  /** read_newick_tree, as a function of the text. Text without ";" is refused. */
  function Parse(s: string): (r: Result<Tree, ParseError>)
    ensures ';' !in s ==> r.Err?
  {
    if ';' in s then Scan(s, 0, Start())
    else
      NoTerminatorFails(s, 0, Start());
      Scan(s, 0, Start())
  }

  /** Without a ";" from i on, the scan ends in an error (and never runs off the text). */
  lemma {:induction false} NoTerminatorFails(s: string, i: nat, z: Cursor)
    requires i <= |s| && forall k :: i <= k < |s| ==> s[k] != ';'
    ensures Scan(s, i, z).Err?
    decreases |s| - i, |s| - i + 2
  {
    if i < |s| {
      if s[i] == '(' {
        NoTerminatorFails(s, i + 1, Open(z));
      } else if s[i] == ',' {
        if Sibling(z).Some? {
          NoTerminatorFails(s, i + 1, Sibling(z).value);
        }
      } else if s[i] == ')' {
        NoTerminatorFails(s, i + 1, Up(z));
      } else {
        NoTerminatorRunFails(s, i, i, z);
      }
    }
  }

  lemma {:induction false} NoTerminatorRunFails(s: string, i: nat, j: nat, z: Cursor)
    requires i < |s| && !IsSymbol(s[i]) && i <= j <= |s|
    requires forall k :: i <= k < j ==> !IsSymbol(s[k])
    requires forall k :: i <= k < |s| ==> s[k] != ';'
    ensures ScanRun(s, i, j, z).Err?
    decreases |s| - i, |s| - j
  {
    if j < |s| && !IsSymbol(s[j]) {
      NoTerminatorRunFails(s, i, j + 1, z);
    } else if j < |s| {
      match ReadLabel(s[i..j]) {
        case Err(_) =>
        case Ok(l) => NoTerminatorFails(s, j, Relabel(z, l));
      }
    }
  }

  // ---------------------------------------------------------------------
  // The scan over Node objects
  // ---------------------------------------------------------------------

  /** Nodes lo..hi-1 have all their descendants below hi. */
  ghost predicate Closed(a: seq<NodeRec>, lo: nat, hi: nat)
    requires hi <= |a|
  {
    forall x, k :: lo <= x < hi && 0 <= k < |a[x].descendants| ==> a[x].descendants[k] < hi
  }

  /** A subtree whose nodes all lie in x..hi-1 only depends on those records. */
  lemma {:induction false} BuildFrame(a: seq<NodeRec>, b: seq<NodeRec>, x: nat, hi: nat)
    requires WellFormed(a) && WellFormed(b) && x < hi <= |a| && hi <= |b|
    requires Closed(a, x, hi)
    requires forall y :: x <= y < hi ==> b[y] == a[y]
    ensures Build(b, x) == Build(a, x)
    decreases hi - x
  {
    forall k | 0 <= k < |a[x].descendants|
      ensures Build(b, a[x].descendants[k]) == Build(a, a[x].descendants[k])
    {
      BuildFrame(a, b, a[x].descendants[k], hi);
    }
  }

  /**
   * Node p, an ancestor of the cursor, matches frame f: its last descendant
   * is next (the following node on the cursor's path), its other
   * descendants and everything below them lie strictly between p and next,
   * and f holds p's fields and the subtrees of those other descendants.
   */
  ghost predicate FrameAt(a: seq<NodeRec>, p: nat, next: nat, f: Frame)
    requires WellFormed(a) && p < |a|
  {
    var ks := a[p].descendants;
    p < next <= |a| && |ks| > 0 && ks[|ks| - 1] == next &&
    (forall k :: 0 <= k < |ks| - 1 ==> ks[k] < next) &&
    Closed(a, p + 1, next) &&
    f == Frame(a[p].name, a[p].branchLength, Subtrees(a, ks[..|ks| - 1]))
  }

  /**
   * Each node on path above the cursor matches its frame of ctx, ctx[k]
   * belonging to path[k] with path[k + 1] as the next node on the path.
   */
  ghost predicate Frames(a: seq<NodeRec>, path: seq<nat>, ctx: seq<Frame>)
    requires WellFormed(a)
    decreases |ctx|
  {
    |path| == |ctx| + 1 && path[|path| - 1] < |a| &&
    (ctx != [] ==>
      path[|path| - 2] < |a| &&
      FrameAt(a, path[|path| - 2], path[|path| - 1], ctx[|ctx| - 1]) &&
      Frames(a, path[..|path| - 1], ctx[..|ctx| - 1]))
  }

  /** The arena and the path from the root to the cursor mirror the zipper z. */
  ghost predicate Mirrors(a: seq<NodeRec>, path: seq<nat>, z: Cursor)
    requires WellFormed(a)
  {
    Frames(a, path, z.context) && path[0] == 0 && a[0].ancestor.None? &&
    Build(a, path[|path| - 1]) == z.focus
  }

  lemma FrameAtFrame(a: seq<NodeRec>, b: seq<NodeRec>, p: nat, next: nat, f: Frame)
    requires WellFormed(a) && WellFormed(b) && p < |a| && p < |b| && next <= |b|
    requires FrameAt(a, p, next, f)
    requires forall y :: p <= y < next ==> b[y] == a[y]
    ensures FrameAt(b, p, next, f)
  {
    var ks := a[p].descendants;
    forall k | 0 <= k < |ks| - 1 ensures Build(b, ks[k]) == Build(a, ks[k]) {
      BuildFrame(a, b, ks[k], next);
    }
  }

  /** The frames only depend on the records of the nodes below the cursor. */
  lemma {:induction false} FramesKept(a: seq<NodeRec>, b: seq<NodeRec>, path: seq<nat>, ctx: seq<Frame>)
    requires WellFormed(a) && WellFormed(b) && |a| <= |b|
    requires Frames(a, path, ctx)
    requires forall y :: 0 <= y < path[|path| - 1] ==> b[y] == a[y]
    ensures Frames(b, path, ctx)
    decreases |ctx|
  {
    if ctx != [] {
      var p, next := path[|path| - 2], path[|path| - 1];
      FrameAtFrame(a, b, p, next, ctx[|ctx| - 1]);
      FramesKept(a, b, path[..|path| - 1], ctx[..|ctx| - 1]);
    }
  }

  lemma MirrorsStart(a: seq<NodeRec>)
    requires a == [NewRec()]
    ensures WellFormed(a) && Mirrors(a, [0], Start())
  {
  }

  /** "," is ")" followed by "(". */
  lemma SiblingIsUpOpen(z: Cursor)
    requires z.context != []
    ensures Sibling(z) == Some(Open(Up(z)))
  {
  }

  /** Attaching a new last node n under c leaves every record below n but c's as it was. */
  lemma AttachNewFrame(a: seq<NodeRec>, c: nat, b: seq<NodeRec>)
    requires WellFormed(a) && c < |a| && WellFormed(b)
    requires b == Attach(a + [NewRec()], c, |a|)
    ensures FrameAt(b, c, |a|, Frame(a[c].name, a[c].branchLength, Build(a, c).children))
  {
    var n, ks := |a|, a[c].descendants;
    assert b[c].descendants == ks + [n];
    assert (ks + [n])[..|ks|] == ks;
    forall k | 0 <= k < |ks| ensures Build(b, ks[k]) == Build(a, ks[k]) {
      BuildFrame(a, b, ks[k], n);
    }
    assert Subtrees(b, ks) == Build(a, c).children;
  }

  /** The step for "(": a new node, appended and attached under the cursor. */
  lemma MirrorsOpen(a: seq<NodeRec>, path: seq<nat>, z: Cursor, b: seq<NodeRec>)
    requires WellFormed(a) && Mirrors(a, path, z)
    requires b == Attach(a + [NewRec()], path[|path| - 1], |a|)
    requires WellFormed(b)
    ensures Mirrors(b, path + [|a|], Open(z))
  {
    var c, n := path[|path| - 1], |a|;
    FramesKept(a, b, path, z.context);
    AttachNewFrame(a, c, b);
    var path', ctx' := path + [n], z.context + [Frame(z.focus.name, z.focus.branchLength, z.focus.children)];
    assert path'[..|path|] == path && path'[|path| - 1] == c && path'[0] == 0;
    assert ctx'[..|z.context|] == z.context;
    assert Frames(b, path', ctx');
    assert Build(b, n) == Fresh();
  }

  /** The step for ")" below the root: the cursor's ancestor becomes the cursor. */
  lemma MirrorsUp(a: seq<NodeRec>, path: seq<nat>, z: Cursor)
    requires WellFormed(a) && Mirrors(a, path, z) && |path| > 1
    ensures path[|path| - 1] < |a| && a[path[|path| - 1]].ancestor == Some(path[|path| - 2])
    ensures Mirrors(a, path[..|path| - 1], Up(z))
  {
    var d := |z.context|;
    var p, c := path[d - 1], path[d];
    var ks := a[p].descendants;
    assert ks == ks[..|ks| - 1] + [c];
    assert Subtrees(a, ks) == z.context[d - 1].left + [z.focus];
    assert path[..d][0] == path[0];
  }

  /** The cursor has no ancestor exactly when no frame lies above it. */
  lemma MirrorsAtRoot(a: seq<NodeRec>, path: seq<nat>, z: Cursor)
    requires WellFormed(a) && Mirrors(a, path, z)
    ensures path[|path| - 1] < |a| && (a[path[|path| - 1]].ancestor.None? <==> z.context == [])
  {
    if |path| > 1 {
      MirrorsUp(a, path, z);
    }
  }

  /** The step for a label: the cursor's name and branch length change. */
  lemma MirrorsRelabel(a: seq<NodeRec>, path: seq<nat>, z: Cursor, l: Label, b: seq<NodeRec>)
    requires WellFormed(a) && Mirrors(a, path, z)
    requires |b| == |a| && forall y :: 0 <= y < |a| && y != path[|path| - 1] ==> b[y] == a[y]
    requires var c := path[|path| - 1];
      b[c] == NodeRec(Relabel(z, l).focus.name, Relabel(z, l).focus.branchLength, a[c].ancestor, a[c].descendants)
    ensures WellFormed(b) && Mirrors(b, path, Relabel(z, l))
  {
    var c := path[|path| - 1];
    assert WellFormed(b) by {
      assert forall y :: 0 <= y < |a| ==> b[y].ancestor == a[y].ancestor && b[y].descendants == a[y].descendants;
    }
    FramesKept(a, b, path, z.context);
    var ks := a[c].descendants;
    forall k | 0 <= k < |ks| ensures Build(b, ks[k]) == Build(a, ks[k]) {
      BuildFrame(a, b, ks[k], |a|);
    }
  }

  /** At the end of the scan the root is node 0 and its subtree is the closed zipper. */
  lemma {:induction false} MirrorsClose(a: seq<NodeRec>, path: seq<nat>, z: Cursor)
    requires WellFormed(a) && Mirrors(a, path, z)
    ensures path[|path| - 1] < |a| && Root(a, path[|path| - 1]) == 0
    ensures Build(a, 0) == Close(z)
    decreases |path|
  {
    if |path| > 1 {
      MirrorsUp(a, path, z);
      MirrorsClose(a, path[..|path| - 1], Up(z));
    }
  }

  // ---------------------------------------------------------------------
  // The same scan over the arena of nodes
  // ---------------------------------------------------------------------

  /** `Node()` followed by `add_child` under p. */
  function Grow(a: seq<NodeRec>, p: nat): (b: seq<NodeRec>)
    requires WellFormed(a) && p < |a|
    ensures WellFormed(b) && |b| == |a| + 1
  {
    AttachKeepsWellFormed(a + [NewRec()], p, |a|);
    Attach(a + [NewRec()], p, |a|)
  }

  /** The `name` and `branch_length` setters a label calls on node c. */
  function SetLabel(a: seq<NodeRec>, c: nat, l: Label): (b: seq<NodeRec>)
    requires WellFormed(a) && c < |a|
    ensures WellFormed(b) && |b| == |a|
  {
    match l
    case NameOnly(n) => a[c := a[c].(name := n)]
    case LengthOnly(x) => a[c := a[c].(branchLength := x)]
    case NameAndLength(n, x) =>
      var b := a[c := a[c].(name := n)];
      b[c := b[c].(branchLength := x)]
  }

  /**
   * Scan, with the cursor a node c of the arena a instead of a zipper. It
   * is not a third reader: it exists only to connect Parse to the loop of
   * ReadNewickTree, which follows it step by step over a Forest.
   */
  function ArenaScan(s: string, i: nat, a: seq<NodeRec>, c: nat): Result<Tree, ParseError>
    requires i <= |s| && WellFormed(a) && c < |a|
    decreases |s| - i, |s| - i + 2
  {
    if i == |s| then Err(MissingTerminator)
    else if s[i] == ';' then Ok(Build(a, Root(a, c)))
    else if s[i] == '(' then ArenaScan(s, i + 1, Grow(a, c), |a|)
    else if s[i] == ',' then
      match a[c].ancestor
      case None => Err(CommaAtRoot)
      case Some(p) => ArenaScan(s, i + 1, Grow(a, p), |a|)
    else if s[i] == ')' then
      match a[c].ancestor
      case None => ArenaScan(s, i + 1, a, c)
      case Some(p) => ArenaScan(s, i + 1, a, p)
    else ArenaScanRun(s, i, i, a, c)
  }

  function ArenaScanRun(s: string, i: nat, j: nat, a: seq<NodeRec>, c: nat): Result<Tree, ParseError>
    requires i < |s| && !IsSymbol(s[i]) && i <= j <= |s| && WellFormed(a) && c < |a|
    requires forall k :: i <= k < j ==> !IsSymbol(s[k])
    decreases |s| - i, |s| - j
  {
    if j < |s| && !IsSymbol(s[j]) then ArenaScanRun(s, i, j + 1, a, c)
    else if j == |s| then Err(MissingTerminator)
    else ArenaScanLabel(s, i, j, a, c)
  }

  function ArenaScanLabel(s: string, i: nat, j: nat, a: seq<NodeRec>, c: nat): Result<Tree, ParseError>
    requires i < j <= |s| && WellFormed(a) && c < |a|
    decreases |s| - i, 0
  {
    match ReadLabel(s[i..j])
    case Err(e) => Err(e)
    case Ok(l) => ArenaScan(s, j, SetLabel(a, c, l), c)
  }

  /** From any arena state that mirrors a zipper, both scans give the same result. */
  lemma {:induction false} Agree(s: string, i: nat, a: seq<NodeRec>, path: seq<nat>, z: Cursor)
    requires i <= |s| && WellFormed(a) && Mirrors(a, path, z)
    ensures ArenaScan(s, i, a, path[|path| - 1]) == Scan(s, i, z)
    decreases |s| - i, |s| - i + 3
  {
    if i == |s| {
    } else if s[i] == ';' {
      MirrorsClose(a, path, z);
    } else if s[i] == '(' {
      AgreeOpen(s, i, a, path, z);
    } else if s[i] == ',' {
      AgreeComma(s, i, a, path, z);
    } else if s[i] == ')' {
      AgreeClose(s, i, a, path, z);
    } else {
      AgreeRun(s, i, i, a, path, z);
    }
  }

  lemma {:induction false} AgreeOpen(s: string, i: nat, a: seq<NodeRec>, path: seq<nat>, z: Cursor)
    requires i < |s| && s[i] == '(' && WellFormed(a) && Mirrors(a, path, z)
    ensures ArenaScan(s, i, a, path[|path| - 1]) == Scan(s, i, z)
    decreases |s| - i, |s| - i + 2
  {
    var c := path[|path| - 1];
    MirrorsOpen(a, path, z, Grow(a, c));
    Agree(s, i + 1, Grow(a, c), path + [|a|], Open(z));
  }

  lemma {:induction false} AgreeComma(s: string, i: nat, a: seq<NodeRec>, path: seq<nat>, z: Cursor)
    requires i < |s| && s[i] == ',' && WellFormed(a) && Mirrors(a, path, z)
    ensures ArenaScan(s, i, a, path[|path| - 1]) == Scan(s, i, z)
    decreases |s| - i, |s| - i + 2
  {
    MirrorsAtRoot(a, path, z);
    if z.context != [] {
      AgreeSibling(s, i, a, path, z);
      SiblingIsUpOpen(z);
    }
  }

  /** Below the root, "," grows a sibling under the ancestor in both scans. */
  lemma {:induction false} AgreeSibling(s: string, i: nat, a: seq<NodeRec>, path: seq<nat>, z: Cursor)
    requires i < |s| && WellFormed(a) && Mirrors(a, path, z) && z.context != []
    ensures path[|path| - 1] < |a| && a[path[|path| - 1]].ancestor.Some?
    ensures var p := a[path[|path| - 1]].ancestor.value;
      p < |a| && ArenaScan(s, i + 1, Grow(a, p), |a|) == Scan(s, i + 1, Open(Up(z)))
    decreases |s| - i, |s| - i + 1
  {
    MirrorsUp(a, path, z);
    var up := path[..|path| - 1];
    var p := path[|path| - 2];
    assert up[|up| - 1] == p;
    var b := Grow(a, p);
    MirrorsOpen(a, up, Up(z), b);
    Agree(s, i + 1, b, up + [|a|], Open(Up(z)));
    assert (up + [|a|])[|up|] == |a|;
  }

  lemma {:induction false} AgreeClose(s: string, i: nat, a: seq<NodeRec>, path: seq<nat>, z: Cursor)
    requires i < |s| && s[i] == ')' && WellFormed(a) && Mirrors(a, path, z)
    ensures ArenaScan(s, i, a, path[|path| - 1]) == Scan(s, i, z)
    decreases |s| - i, |s| - i + 2
  {
    MirrorsAtRoot(a, path, z);
    if z.context != [] {
      MirrorsUp(a, path, z);
      Agree(s, i + 1, a, path[..|path| - 1], Up(z));
    } else {
      Agree(s, i + 1, a, path, z);
    }
  }

  lemma {:induction false} AgreeRun(s: string, i: nat, j: nat, a: seq<NodeRec>, path: seq<nat>, z: Cursor)
    requires i < |s| && !IsSymbol(s[i]) && i <= j <= |s| && WellFormed(a) && Mirrors(a, path, z)
    requires forall k :: i <= k < j ==> !IsSymbol(s[k])
    ensures ArenaScanRun(s, i, j, a, path[|path| - 1]) == ScanRun(s, i, j, z)
    decreases |s| - i, |s| - j + 1
  {
    if j < |s| && !IsSymbol(s[j]) {
      AgreeRun(s, i, j + 1, a, path, z);
    } else if j < |s| {
      AgreeLabel(s, i, j, a, path, z);
    }
  }

  lemma {:induction false} AgreeLabel(s: string, i: nat, j: nat, a: seq<NodeRec>, path: seq<nat>, z: Cursor)
    requires i < j <= |s| && WellFormed(a) && Mirrors(a, path, z)
    ensures ArenaScanLabel(s, i, j, a, path[|path| - 1]) == ScanLabel(s, i, j, z)
    decreases |s| - i, 0
  {
    var c := path[|path| - 1];
    match ReadLabel(s[i..j]) {
      case Err(_) =>
      case Ok(l) =>
        var b := SetLabel(a, c, l);
        MirrorsRelabel(a, path, z, l, b);
        Agree(s, j, b, path, Relabel(z, l));
    }
  }

  /** The scan over the arena, from one fresh node, is Parse. */
  lemma ArenaParse(s: string)
    ensures ArenaScan(s, 0, [NewRec()], 0) == Parse(s)
  {
    MirrorsStart([NewRec()]);
    Agree(s, 0, [NewRec()], [0], Start());
  }

  /**
   * The label branch of read_newick_tree: from i, the run of characters up to
   * the next symbol, read as a label and set on node `current`. On success j
   * is the position of that symbol and the scan goes on from there.
   */
  method ReadLabelRun(forest: Forest, treeStr: string, i: nat, current: nat) returns (j: nat, err: Option<ParseError>)
    requires i < |treeStr| && !IsSymbol(treeStr[i]) && forest.Valid() && current < |forest.nodes|
    modifies forest
    ensures forest.Valid() && |forest.nodes| == |old(forest.nodes)|
    ensures err.None? ==> (i < j < |treeStr|
      && ArenaScan(treeStr, j, forest.nodes, current) == ArenaScanRun(treeStr, i, i, old(forest.nodes), current))
    ensures err.None? ==> (IsSymbol(treeStr[j]) && (forall k :: i <= k < j ==> !IsSymbol(treeStr[k]))
      && ReadLabel(treeStr[i..j]).Ok?
      && forest.nodes == SetLabel(old(forest.nodes), current, ReadLabel(treeStr[i..j]).value))
    ensures err.Some? ==> ArenaScanRun(treeStr, i, i, old(forest.nodes), current) == Err(err.value)
  {
    ghost var whole := ArenaScanRun(treeStr, i, i, forest.nodes, current);
    j := i;
    while j < |treeStr| && !IsSymbol(treeStr[j])
      invariant i <= j <= |treeStr| && forall k :: i <= k < j ==> !IsSymbol(treeStr[k])
      invariant ArenaScanRun(treeStr, i, j, forest.nodes, current) == whole
      decreases |treeStr| - j
    {
      j := j + 1;
    }
    if j == |treeStr| {
      return j, Some(MissingTerminator);
    }
    var read := ReadLabel(treeStr[i..j]);
    assert ArenaScanLabel(treeStr, i, j, forest.nodes, current) == whole;
    if read.Err? {
      return j, Some(read.error);
    }
    ApplyLabel(forest, current, read.value);
    err := None;
  }

  /** The setter calls of the source's three label branches, on node `current`. */
  method ApplyLabel(forest: Forest, current: nat, l: Label)
    requires forest.Valid() && current < |forest.nodes|
    modifies forest
    ensures forest.Valid() && forest.nodes == SetLabel(old(forest.nodes), current, l)
  {
    match l {
      case NameOnly(name) =>
        forest.SetName(current, name);
      case LengthOnly(length) =>
        forest.SetBranchLength(current, length);
      case NameAndLength(name, length) =>
        forest.SetName(current, name);
        forest.SetBranchLength(current, length);
    }
  }

  /**
   * One pass of read_newick_tree's loop at a character other than ";": the
   * cursor moves of "(", "," and ")", or a label run. It leaves the scan's
   * result unchanged, or reports the error the source returns there.
   */
  method ScanStep(forest: Forest, treeStr: string, i: nat, current: nat) returns (next: nat, cursor: nat, err: Option<ParseError>)
    requires i < |treeStr| && treeStr[i] != ';' && forest.Valid() && current < |forest.nodes|
    modifies forest
    ensures forest.Valid() && cursor < |forest.nodes|
    ensures err.None? ==> (i < next <= |treeStr|
      && ArenaScan(treeStr, next, forest.nodes, cursor) == ArenaScan(treeStr, i, old(forest.nodes), current))
    ensures err.Some? ==> ArenaScan(treeStr, i, old(forest.nodes), current) == Err(err.value)
  {
    var c := treeStr[i];
    ghost var a := forest.nodes;
    next, cursor, err := i + 1, current, None;
    if c == '(' {
      var child := forest.NewNode();
      var _ := forest.AddChild(current, child);
      assert forest.nodes == Grow(a, current);
      cursor := child;
    } else if c == ',' {
      match forest.nodes[current].ancestor {
        case None =>
          err := Some(CommaAtRoot);
        case Some(p) =>
          var sibling := forest.NewNode();
          var _ := forest.AddChild(p, sibling);
          assert forest.nodes == Grow(a, p);
          cursor := sibling;
      }
    } else if c == ')' {
      if forest.nodes[current].ancestor.Some? {
        cursor := forest.nodes[current].ancestor.value;
      }
    } else {
      assert ArenaScan(treeStr, i, a, current) == ArenaScanRun(treeStr, i, i, a, current);
      next, err := ReadLabelRun(forest, treeStr, i, current);
    }
  }

  /**
   * read_newick_tree: the scan over Node objects, with the source's cursor
   * moves and error cases; it computes Parse(treeStr).
   */
  method ReadNewickTree(treeStr: string) returns (r: Result<Tree, ParseError>)
    ensures r == Parse(treeStr)
  {
    var forest := new Forest();
    var current: nat := forest.NewNode();
    var i := 0;
    assert forest.nodes == [NewRec()];
    ArenaParse(treeStr);
    while i < |treeStr| && treeStr[i] != ';'
      invariant i <= |treeStr| && forest.Valid() && current < |forest.nodes|
      invariant ArenaScan(treeStr, i, forest.nodes, current) == Parse(treeStr)
      decreases |treeStr| - i
    {
      var err;
      i, current, err := ScanStep(forest, treeStr, i, current);
      if err.Some? {
        return Err(err.value);
      }
    }
    if i == |treeStr| {
      return Err(MissingTerminator);
    }
    var root := Root(forest.nodes, current);
    return Ok(Build(forest.nodes, root));
  }
}
