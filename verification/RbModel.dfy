/** The red-black tree of cocool/co_rbtree.c as a value, and the rules its colours obey. */
module RbModel {
  import opened Sequences

  datatype Color = Red | Black

  /** A node carries its four links and its colour in the node object itself,
      exactly as the intrusive C struct does.  The key stands for whatever the
      user of the tree embeds the node in; the library never reads it. */
  class RbNode {
    var parent: RbNode?
    var right: RbNode?
    var left: RbNode?
    var color: Color
    const key: int

    constructor (key: int)
      ensures this.key == key
    {
      this.key := key;
      parent, right, left, color := null, null, null, Red;
    }
  }

  datatype Tree = Nil | Node(left: Tree, node: RbNode, color: Color, right: Tree)

  /** The rest of a tree around a hole, innermost frame first. */
  datatype Ctx =
    | Top
    | InLeft(up: Ctx, node: RbNode, color: Color, right: Tree)
    | InRight(up: Ctx, left: Tree, node: RbNode, color: Color)

  ghost function Inorder(t: Tree): seq<RbNode> {
    match t
    case Nil => []
    case Node(l, n, _, r) => Inorder(l) + [n] + Inorder(r)
  }

  ghost function NodeSet(t: Tree): set<RbNode> {
    set n | n in Inorder(t)
  }

  /** The nodes that come before, and after, whatever is put in the hole. */
  ghost function Before(c: Ctx): seq<RbNode> {
    match c
    case Top => []
    case InLeft(up, _, _, _) => Before(up)
    case InRight(up, l, n, _) => Before(up) + Inorder(l) + [n]
  }

  ghost function After(c: Ctx): seq<RbNode> {
    match c
    case Top => []
    case InLeft(up, n, _, r) => [n] + Inorder(r) + After(up)
    case InRight(up, _, _, _) => After(up)
  }

  ghost function Plug(c: Ctx, t: Tree): Tree {
    match c
    case Top => t
    case InLeft(up, n, col, r) => Plug(up, Node(t, n, col, r))
    case InRight(up, l, n, col) => Plug(up, Node(l, n, col, t))
  }

  ghost function Root(t: Tree): RbNode? {
    if t.Nil? then null else t.node
  }

  /** The root pointer of the whole tree, when the hole is filled by ptr. */
  ghost function CtxRoot(c: Ctx, ptr: RbNode?): RbNode? {
    if c.Top? then ptr else CtxRoot(c.up, c.node)
  }

  ghost function CtxParent(c: Ctx): RbNode? {
    if c.Top? then null else c.node
  }

  /** A missing child counts as black. */
  ghost function ColorOf(t: Tree): Color {
    if t.Nil? then Black else t.color
  }

  ghost function CtxColor(c: Ctx): Color {
    if c.Top? then Black else c.color
  }

  // ---- The red-black rules -------------------------------------------------

  /** Every path from the root of t to a missing child meets h black nodes. */
  ghost predicate Balanced(t: Tree, h: nat) {
    match t
    case Nil => h == 0
    case Node(l, _, Red, r) => Balanced(l, h) && Balanced(r, h)
    case Node(l, _, Black, r) => h > 0 && Balanced(l, h - 1) && Balanced(r, h - 1)
  }

  ghost predicate NoRedRed(t: Tree) {
    match t
    case Nil => true
    case Node(l, _, col, r) =>
      && (col == Red ==> ColorOf(l) == Black && ColorOf(r) == Black)
      && NoRedRed(l) && NoRedRed(r)
  }

  /** The rules a user of the tree may rely on between calls. */
  ghost predicate RedBlack(t: Tree) {
    ColorOf(t) == Black && NoRedRed(t) && exists h: nat :: Balanced(t, h)
  }

  /** c obeys every rule that does not mention the hole, and a hole of black
      height h keeps its paths equally black.  A red frame is never outermost. */
  ghost predicate CtxOk(c: Ctx, h: nat) {
    match c
    case Top => true
    case InLeft(up, _, col, r) => FrameOk(up, col, r, h) && CtxOk(up, Grow(col, h))
    case InRight(up, l, _, col) => FrameOk(up, col, l, h) && CtxOk(up, Grow(col, h))
  }

  ghost predicate FrameOk(up: Ctx, col: Color, sibling: Tree, h: nat) {
    && Balanced(sibling, h) && NoRedRed(sibling)
    && (col == Red ==> ColorOf(sibling) == Black && !up.Top? && CtxColor(up) == Black)
  }

  ghost function Grow(col: Color, h: nat): nat {
    if col == Black then h + 1 else h
  }

  // ---- Contexts and trees --------------------------------------------------

  lemma Unnest<T>(a: seq<T>, b: seq<T>, x: T, c: seq<T>, d: seq<T>)
    ensures a + (b + [x] + c) + d == a + b + ([x] + c + d)
    ensures a + (b + [x] + c) + d == (a + b + [x]) + c + d
  {
  }

  lemma {:induction false} PlugInorder(c: Ctx, t: Tree)
    ensures Inorder(Plug(c, t)) == Before(c) + Inorder(t) + After(c)
  {
    match c
    case Top =>
    case InLeft(up, n, col, r) =>
      PlugInorder(up, Node(t, n, col, r));
      Unnest(Before(up), Inorder(t), n, Inorder(r), After(up));
    case InRight(up, l, n, col) =>
      PlugInorder(up, Node(l, n, col, t));
      Unnest(Before(up), Inorder(l), n, Inorder(t), After(up));
  }

  lemma NoTwiceSplit<T>(a: seq<T>, b: seq<T>)
    requires NoTwice(a + b)
    ensures NoTwice(a) && NoTwice(b)
    ensures forall x :: x in a ==> x !in b
  {
    forall i, j | 0 <= i < j < |a|
      ensures Unequal(a, i, j)
    {
      assert Unequal(a + b, i, j);
    }
    forall i, j | 0 <= i < j < |b|
      ensures Unequal(b, i, j)
    {
      assert Unequal(a + b, |a| + i, |a| + j);
    }
    forall i, j | 0 <= i < |a| && 0 <= j < |b|
      ensures a[i] != b[j]
    {
      assert Unequal(a + b, i, |a| + j);
    }
  }

  /** The nodes of a context, and of a tree with a root, are pairwise different. */
  lemma CtxApart(c: Ctx, t: Tree)
    requires NoTwice(Inorder(Plug(c, t)))
    ensures NoTwice(Inorder(t))
    ensures forall x :: x in Inorder(t) ==> x !in Before(c) && x !in After(c)
    ensures forall x :: x in Before(c) ==> x !in After(c)
    ensures !c.Top? ==> c.node in (if c.InLeft? then After(c) else Before(c))
    ensures c.InRight? && c.left.Node? ==> c.left.node in Before(c)
    ensures c.InLeft? && c.right.Node? ==> c.right.node in After(c)
  {
    PlugInorder(c, t);
    NoTwiceSplit(Before(c) + Inorder(t), After(c));
    NoTwiceSplit(Before(c), Inorder(t));
    if c.InLeft? {
      assert After(c)[0] == c.node;
      assert c.right.Node? ==> c.right.node in Inorder(c.right);
    } else if c.InRight? {
      assert Before(c)[|Before(c)| - 1] == c.node;
      assert c.left.Node? ==> c.left.node in Inorder(c.left);
    }
  }

  lemma RootApart(t: Tree)
    requires NoTwice(Inorder(t)) && t.Node?
    ensures NoTwice(Inorder(t.left)) && NoTwice(Inorder(t.right))
    ensures t.node !in Inorder(t.left) && t.node !in Inorder(t.right)
    ensures forall x :: x in Inorder(t.left) ==> x !in Inorder(t.right)
  {
    NoTwiceSplit(Inorder(t.left) + [t.node], Inorder(t.right));
    NoTwiceSplit(Inorder(t.left), [t.node]);
    assert t.node in Inorder(t.left) + [t.node];
    assert t.node in [t.node];
  }

  /** Filling the hole with a tree of the right height restores every rule. */
  lemma {:induction false} PlugRedBlack(c: Ctx, t: Tree, h: nat)
    requires CtxOk(c, h) && Balanced(t, h) && NoRedRed(t)
    requires ColorOf(t) == Red ==> !c.Top? && CtxColor(c) == Black
    ensures RedBlack(Plug(c, t))
  {
    match c
    case Top =>
    case InLeft(up, n, col, r) => PlugRedBlack(up, Node(t, n, col, r), Grow(col, h));
    case InRight(up, l, n, col) => PlugRedBlack(up, Node(l, n, col, t), Grow(col, h));
  }

  /** Conversely every subtree of a red-black tree sits in a good context. */
  lemma {:induction false} UnplugRedBlack(c: Ctx, t: Tree) returns (h: nat)
    requires RedBlack(Plug(c, t))
    ensures CtxOk(c, h) && Balanced(t, h) && NoRedRed(t)
    ensures ColorOf(t) == Red ==> !c.Top? && CtxColor(c) == Black
  {
    match c
    case Top => h :| Balanced(t, h);
    case InLeft(up, n, col, r) =>
      h := UnplugRedBlack(up, Node(t, n, col, r));
      if col == Black { h := h - 1; }
    case InRight(up, l, n, col) =>
      h := UnplugRedBlack(up, Node(l, n, col, t));
      if col == Black { h := h - 1; }
  }

  /** Every node of a tree has a place in it. */
  lemma {:induction false} FindPlace(t: Tree, n: RbNode) returns (c: Ctx, s: Tree)
    requires n in Inorder(t)
    ensures Plug(c, s) == t && s.Node? && s.node == n
  {
    c, s := FindPlaceIn(Top, t, n);
  }

  lemma {:induction false} FindPlaceIn(up: Ctx, t: Tree, n: RbNode) returns (c: Ctx, s: Tree)
    requires n in Inorder(t)
    ensures Plug(c, s) == Plug(up, t) && s.Node? && s.node == n
    decreases t
  {
    if t.node == n {
      c, s := up, t;
    } else if n in Inorder(t.left) {
      c, s := FindPlaceIn(InLeft(up, t.node, t.color, t.right), t.left, n);
    } else {
      c, s := FindPlaceIn(InRight(up, t.left, t.node, t.color), t.right, n);
    }
  }

  // ---- Rotations -----------------------------------------------------------

  ghost function RotatedLeft(t: Tree): Tree
    requires t.Node? && t.right.Node?
  {
    Node(Node(t.left, t.node, t.color, t.right.left), t.right.node, t.right.color, t.right.right)
  }

  ghost function RotatedRight(t: Tree): Tree
    requires t.Node? && t.left.Node?
  {
    Node(t.left.left, t.left.node, t.left.color, Node(t.left.right, t.node, t.color, t.right))
  }

  lemma Regroup<T>(a: seq<T>, x: T, b: seq<T>, y: T, d: seq<T>)
    ensures a + [x] + (b + [y] + d) == (a + [x] + b) + [y] + d
  {
  }

  lemma RotationInorder(t: Tree)
    requires t.Node?
    ensures t.right.Node? ==> Inorder(RotatedLeft(t)) == Inorder(t)
    ensures t.left.Node? ==> Inorder(RotatedRight(t)) == Inorder(t)
  {
    if t.right.Node? {
      Regroup(Inorder(t.left), t.node, Inorder(t.right.left), t.right.node, Inorder(t.right.right));
    }
    if t.left.Node? {
      Regroup(Inorder(t.left.left), t.left.node, Inorder(t.left.right), t.node, Inorder(t.right));
    }
  }

  /** Two trees with the same in-order sequence are interchangeable in a hole,
      as far as the sequence goes. */
  lemma PlugSameInorder(c: Ctx, t: Tree, t': Tree)
    requires Inorder(t') == Inorder(t)
    ensures Inorder(Plug(c, t')) == Inorder(Plug(c, t))
  {
    PlugInorder(c, t);
    PlugInorder(c, t');
  }

  // ---- Insertion: the rules during the upward climb ------------------------

  ghost function Painted(t: Tree, col: Color): Tree {
    if t.Nil? then t else Node(t.left, t.node, col, t.right)
  }

  /** The tree one level above the hole. */
  ghost function Up(c: Ctx, t: Tree): Tree
    requires !c.Top?
  {
    Node(if c.InLeft? then t else c.left, c.node, c.color, if c.InLeft? then c.right else t)
  }

  ghost function Sibling(c: Ctx): Tree
    requires !c.Top?
  {
    if c.InLeft? then c.right else c.left
  }

  ghost function Depth(c: Ctx): nat {
    if c.Top? then 0 else 1 + Depth(c.up)
  }

  /** A red node in focus; the only rule that may fail is red-under-red
      between it and its parent. */
  ghost predicate RedFocus(c: Ctx, t: Tree, h: nat) {
    t.Node? && t.color == Red && NoRedRed(t) && Balanced(t, h) && CtxOk(c, h)
  }

  /** A red parent is never the root. */
  lemma GrandparentExists(c: Ctx, t: Tree, h: nat)
    requires RedFocus(c, t, h) && CtxColor(c) == Red
    ensures !c.Top? && !c.up.Top? && c.up.color == Black
    ensures ColorOf(Sibling(c)) == Black
  {
  }

  ghost function Recolored(c: Ctx, t: Tree): Tree
    requires !c.Top? && !c.up.Top? && Sibling(c.up).Node?
  {
    var p, u := Painted(Up(c, t), Black), Painted(Sibling(c.up), Black);
    if c.up.InLeft? then Node(p, c.up.node, Red, u) else Node(u, c.up.node, Red, p)
  }

  /** Red uncle: recolouring moves the violation two levels up. */
  lemma RecolorKeeps(c: Ctx, t: Tree, h: nat)
    requires RedFocus(c, t, h) && CtxColor(c) == Red
    requires ColorOf(Sibling(c.up)) == Red
    ensures RedFocus(c.up.up, Recolored(c, t), h + 1)
    ensures Inorder(Plug(c.up.up, Recolored(c, t))) == Inorder(Plug(c, t))
  {
    var u := Sibling(c.up);
    assert CtxOk(c.up, h);
    assert Balanced(u, h);
    assert NoRedRed(u);
    assert Inorder(Painted(u, Black)) == Inorder(u);
    assert Inorder(Painted(Up(c, t), Black)) == Inorder(Up(c, t));
    PlugSameInorder(c.up.up, Up(c.up, Up(c, t)), Recolored(c, t));
  }

  /** Black uncle, straight line to the left: the state after recolouring and
      rotating right at the grandparent. */
  lemma RotateRightKeeps(up: Ctx, g: RbNode, u: Tree, p: RbNode, b: Tree, a: Tree, h: nat)
    requires RedFocus(InLeft(InLeft(up, g, Black, u), p, Red, b), a, h) && ColorOf(u) == Black
    ensures RedFocus(InLeft(up, p, Black, Node(b, g, Red, u)), a, h)
  {
    assert CtxOk(InLeft(up, g, Black, u), h);
  }

  lemma RotateLeftKeeps(up: Ctx, g: RbNode, u: Tree, p: RbNode, b: Tree, a: Tree, h: nat)
    requires RedFocus(InRight(InRight(up, u, g, Black), b, p, Red), a, h) && ColorOf(u) == Black
    ensures RedFocus(InRight(up, Node(u, g, Red, b), p, Black), a, h)
  {
    assert CtxOk(InRight(up, u, g, Black), h);
  }

  /** A bent line is straightened by one rotation at the parent. */
  lemma StraightenLeftKeeps(up: Ctx, p: RbNode, a: Tree, t: Tree, h: nat)
    requires RedFocus(InRight(up, a, p, Red), t, h)
    ensures RedFocus(InLeft(up, t.node, Red, t.right), Node(a, p, Red, t.left), h)
  {
  }

  lemma StraightenRightKeeps(up: Ctx, p: RbNode, a: Tree, t: Tree, h: nat)
    requires RedFocus(InLeft(up, p, Red, a), t, h)
    ensures RedFocus(InRight(up, t.left, t.node, Red), Node(t.right, p, Red, a), h)
  {
  }

  /** When the climb stops, blackening the root finishes the job. */
  lemma ClimbDone(c: Ctx, t: Tree, h: nat) returns (whole: Tree)
    requires RedFocus(c, t, h) && CtxColor(c) == Black
    ensures whole == Plug(c, t) && whole.Node? && RedBlack(whole.(color := Black))
    ensures Inorder(whole.(color := Black)) == Inorder(Plug(c, t))
  {
    whole := Plug(c, t);
    if c.Top? {
      assert Balanced(t.(color := Black), h + 1);
    } else {
      PlugRedBlack(c, t, h);
      PlugInorder(c, t);
      assert t.node in Inorder(t);
      assert whole.Node?;
      assert whole.(color := Black) == whole;
    }
  }

  // ---- Erasure: the rules while one path is short of a black node ----------

  /** The hole wants black height h + 1 but is filled with height h; the root
      of s may besides be red below a red parent or above a red child. */
  ghost predicate Short(c: Ctx, s: Tree, h: nat) {
    && CtxOk(c, h + 1) && Balanced(s, h)
    && (s.Node? ==> NoRedRed(s.left) && NoRedRed(s.right))
  }

  /** The code never dereferences a missing sibling. */
  lemma SiblingExists(c: Ctx, s: Tree, h: nat)
    requires Short(c, s, h) && !c.Top?
    ensures Sibling(c).Node?
    ensures Sibling(c).color == Red ==>
      c.color == Black && Sibling(c).left.Node? && Sibling(c).right.Node?
  {
    var o := Sibling(c);
    assert Balanced(o, h + 1);
    if o.color == Red {
      assert Balanced(o.left, h + 1) && Balanced(o.right, h + 1);
    }
  }

  lemma RedSiblingLeft(c: Ctx, s: Tree, h: nat)
    requires Short(c, s, h) && c.InLeft? && ColorOf(c.right) == Red
    ensures var o := c.right;
      Short(InLeft(InLeft(c.up, o.node, Black, o.right), c.node, Red, o.left), s, h)
  {
  }

  lemma RedSiblingRight(c: Ctx, s: Tree, h: nat)
    requires Short(c, s, h) && c.InRight? && ColorOf(c.left) == Red
    ensures var o := c.left;
      Short(InRight(InRight(c.up, o.left, o.node, Black), o.right, c.node, Red), s, h)
  {
  }

  ghost predicate BlackNephews(o: Tree) {
    o.Node? && ColorOf(o.left) == Black && ColorOf(o.right) == Black
  }

  ghost function SiblingPainted(c: Ctx, col: Color): Ctx {
    match c
    case Top => c
    case InLeft(up, n, cc, r) => InLeft(up, n, cc, Painted(r, col))
    case InRight(up, l, n, cc) => InRight(up, Painted(l, col), n, cc)
  }

  /** Black nephews: the sibling gives up its black, the parent inherits the debt. */
  lemma ReddenSibling(c: Ctx, s: Tree, h: nat)
    requires Short(c, s, h) && !c.Top? && ColorOf(s) == Black
    requires BlackNephews(Sibling(c)) && Sibling(c).color == Black
    ensures Short(c.up, Up(SiblingPainted(c, Red), s), if c.color == Black then h + 1 else h)
    ensures Inorder(Plug(c.up, Up(SiblingPainted(c, Red), s))) == Inorder(Plug(c, s))
  {
    assert Inorder(Painted(Sibling(c), Red)) == Inorder(Sibling(c));
    PlugSameInorder(c.up, Up(c, s), Up(SiblingPainted(c, Red), s));
  }

  /** A red near nephew becomes a red far nephew. */
  ghost function FarLeft(c: Ctx): Ctx
    requires c.InLeft? && c.right.Node? && c.right.left.Node?
  {
    var o := c.right;
    InLeft(c.up, c.node, c.color, Node(o.left.left, o.left.node, Black, Node(o.left.right, o.node, Red, o.right)))
  }

  ghost function FarRight(c: Ctx): Ctx
    requires c.InRight? && c.left.Node? && c.left.right.Node?
  {
    var o := c.left;
    InRight(c.up, Node(Node(o.left, o.node, Red, o.right.left), o.right.node, Black, o.right.right), c.node, c.color)
  }

  lemma FarLeftKeeps(c: Ctx, s: Tree, h: nat)
    requires Short(c, s, h) && c.InLeft? && c.right.Node? && c.right.color == Black
    requires ColorOf(c.right.left) == Red && ColorOf(c.right.right) == Black
    ensures Short(FarLeft(c), s, h)
  {
    var o := c.right;
    assert Balanced(o, h + 1) && Balanced(o.left, h) && NoRedRed(o.left);
  }

  lemma FarRightKeeps(c: Ctx, s: Tree, h: nat)
    requires Short(c, s, h) && c.InRight? && c.left.Node? && c.left.color == Black
    requires ColorOf(c.left.right) == Red && ColorOf(c.left.left) == Black
    ensures Short(FarRight(c), s, h)
  {
    var o := c.left;
    assert Balanced(o, h + 1) && Balanced(o.right, h) && NoRedRed(o.right);
  }

  /** A red far nephew pays the debt: this is what stands where the parent stood. */
  ghost function PaidLeft(c: Ctx, s: Tree): Tree
    requires c.InLeft? && c.right.Node?
  {
    Node(Node(s, c.node, Black, c.right.left), c.right.node, c.color, Painted(c.right.right, Black))
  }

  ghost function PaidRight(c: Ctx, s: Tree): Tree
    requires c.InRight? && c.left.Node?
  {
    Node(Painted(c.left.left, Black), c.left.node, c.color, Node(c.left.right, c.node, Black, s))
  }

  lemma PaidLeftOk(c: Ctx, s: Tree, h: nat)
    requires Short(c, s, h) && ColorOf(s) == Black
    requires c.InLeft? && c.right.Node? && c.right.color == Black && ColorOf(c.right.right) == Red
    ensures RedBlack(Plug(c.up, PaidLeft(c, s)))
    ensures Inorder(Plug(c.up, PaidLeft(c, s))) == Inorder(Plug(c, s))
  {
    var o := c.right;
    assert Balanced(o.right, h) && NoRedRed(o.right);
    assert Balanced(Painted(o.right, Black), h + 1) && NoRedRed(Painted(o.right, Black));
    PlugRedBlack(c.up, PaidLeft(c, s), if c.color == Black then h + 2 else h + 1);
    assert Inorder(Painted(o.right, Black)) == Inorder(o.right);
    RotationInorder(Up(c, s));
    PlugSameInorder(c.up, Up(c, s), PaidLeft(c, s));
  }

  lemma PaidRightOk(c: Ctx, s: Tree, h: nat)
    requires Short(c, s, h) && ColorOf(s) == Black
    requires c.InRight? && c.left.Node? && c.left.color == Black && ColorOf(c.left.left) == Red
    ensures RedBlack(Plug(c.up, PaidRight(c, s)))
    ensures Inorder(Plug(c.up, PaidRight(c, s))) == Inorder(Plug(c, s))
  {
    var o := c.left;
    assert Balanced(o.left, h) && NoRedRed(o.left);
    assert Balanced(Painted(o.left, Black), h + 1) && NoRedRed(Painted(o.left, Black));
    PlugRedBlack(c.up, PaidRight(c, s), if c.color == Black then h + 2 else h + 1);
    assert Inorder(Painted(o.left, Black)) == Inorder(o.left);
    RotationInorder(Up(c, s));
    PlugSameInorder(c.up, Up(c, s), PaidRight(c, s));
  }

  /** When the debt reaches a red node or the root, blackening pays it. */
  lemma ShortDone(c: Ctx, s: Tree, h: nat)
    requires Short(c, s, h) && (c.Top? || ColorOf(s) == Red)
    ensures RedBlack(Plug(c, Painted(s, Black)))
    ensures Inorder(Plug(c, Painted(s, Black))) == Inorder(Plug(c, s))
  {
    var h' := if ColorOf(s) == Red then h + 1 else h;
    assert Balanced(Painted(s, Black), h');
    assert Inorder(Painted(s, Black)) == Inorder(s);
    PlugSameInorder(c, s, Painted(s, Black));
    PlugRedBlack(c, Painted(s, Black), h');
  }

  // ---- Erasure: unlinking --------------------------------------------------

  lemma NoTwiceDrop<T>(a: seq<T>, x: T, b: seq<T>)
    requires NoTwice(a + [x] + b)
    ensures NoTwice(a + b)
  {
    var s := a + [x] + b;
    forall i, j | 0 <= i < j < |a + b|
      ensures Unequal(a + b, i, j)
    {
      var i', j' := if i < |a| then i else i + 1, if j < |a| then j else j + 1;
      assert Unequal(s, i', j') && s[i'] == (a + b)[i] && s[j'] == (a + b)[j];
    }
  }

  lemma NotAround<T>(a: seq<T>, x: T, b: seq<T>)
    requires NoTwice(a + [x] + b)
    ensures x !in a + b
  {
    NoTwiceSplit(a + [x], b);
    NoTwiceSplit(a, [x]);
    assert x in [x] && x in a + [x];
  }

  lemma NoTwiceReplace<T>(a: seq<T>, x: T, y: T, b: seq<T>)
    requires NoTwice(a + [x] + b) && y !in a && y !in b
    ensures NoTwice(a + [y] + b)
  {
    var s, s' := a + [x] + b, a + [y] + b;
    assert forall i :: 0 <= i < |s| && i != |a| ==> s'[i] == s[i] && (s[i] in a || s[i] in b);
    forall i, j | 0 <= i < j < |s'|
      ensures Unequal(s', i, j)
    {
      assert Unequal(s, i, j);
    }
  }

  /** The child that takes the place of a node with at most one child. */
  ghost function OnlyChild(t: Tree): Tree
    requires t.Node?
  {
    if t.left.Nil? then t.right else t.left
  }

  /** The in-order sequence on either side of the node in focus. */
  ghost function BeforeNode(c: Ctx, t: Tree): seq<RbNode>
    requires t.Node?
  {
    Before(c) + Inorder(t.left)
  }

  ghost function AfterNode(c: Ctx, t: Tree): seq<RbNode>
    requires t.Node?
  {
    Inorder(t.right) + After(c)
  }

  lemma NodeInorder(c: Ctx, t: Tree)
    requires t.Node?
    ensures Inorder(Plug(c, t)) == BeforeNode(c, t) + [t.node] + AfterNode(c, t)
  {
    PlugInorder(c, t);
    Unnest(Before(c), Inorder(t.left), t.node, Inorder(t.right), After(c));
    Unnest3(BeforeNode(c, t), t.node, Inorder(t.right), After(c));
  }

  lemma Unnest3<T>(a: seq<T>, x: T, c: seq<T>, d: seq<T>)
    ensures a + [x] + c + d == a + [x] + (c + d)
  {
  }

  lemma UnlinkInorder(c: Ctx, t: Tree)
    requires t.Node? && (t.left.Nil? || t.right.Nil?)
    ensures Inorder(Plug(c, OnlyChild(t))) == BeforeNode(c, t) + AfterNode(c, t)
  {
    PlugInorder(c, OnlyChild(t));
    if t.left.Nil? {
      assert BeforeNode(c, t) == Before(c);
    } else {
      assert AfterNode(c, t) == After(c);
    }
  }

  /** Unlinking a red node breaks no rule; unlinking a black one leaves a debt. */
  lemma UnlinkColors(c: Ctx, t: Tree) returns (h: nat)
    requires RedBlack(Plug(c, t)) && t.Node? && (t.left.Nil? || t.right.Nil?)
    ensures t.color == Red ==> RedBlack(Plug(c, OnlyChild(t)))
    ensures t.color == Black ==> Short(c, OnlyChild(t), h)
  {
    h := UnplugRedBlack(c, t);
    if t.color == Red {
      PlugRedBlack(c, OnlyChild(t), h);
    } else {
      h := h - 1;
    }
  }

  // ---- Erasure: the successor takes the erased node's place ----------------

  /** k is a path of left links below base. */
  ghost predicate Spine(k: Ctx, base: Ctx) {
    k == base || (k.InLeft? && Spine(k.up, base))
  }

  /** What hangs in base when s hangs at the end of the path. */
  ghost function Hang(k: Ctx, base: Ctx, s: Tree): Tree
    requires Spine(k, base)
  {
    if k == base then s else Hang(k.up, base, Node(s, k.node, k.color, k.right))
  }

  ghost function Respine(k: Ctx, base: Ctx, base': Ctx): Ctx
    requires Spine(k, base)
  {
    if k == base then base' else InLeft(Respine(k.up, base, base'), k.node, k.color, k.right)
  }

  lemma {:induction false} HangPlug(k: Ctx, base: Ctx, base': Ctx, s: Tree)
    requires Spine(k, base)
    ensures Plug(k, s) == Plug(base, Hang(k, base, s))
    ensures Plug(Respine(k, base, base'), s) == Plug(base', Hang(k, base, s))
  {
    if k != base {
      HangPlug(k.up, base, base', Node(s, k.node, k.color, k.right));
    }
  }

  lemma {:induction false} RespineOk(k: Ctx, base: Ctx, base': Ctx, h: nat)
    requires Spine(k, base) && CtxOk(k, h)
    requires base.InRight? && base'.InRight? && base' == base.(node := base'.node)
    ensures CtxOk(Respine(k, base, base'), h) && CtxColor(Respine(k, base, base')) == CtxColor(k)
  {
    if k != base {
      RespineOk(k.up, base, base', Grow(k.color, h));
    }
  }

  lemma {:induction false} RespineInorder(k: Ctx, base: Ctx, base': Ctx)
    requires Spine(k, base) && base.InRight? && base'.InRight? && base' == base.(node := base'.node)
    ensures Before(k) == Before(base) && Before(Respine(k, base, base')) == Before(base')
    ensures After(Respine(k, base, base')) == After(k)
  {
    if k != base {
      RespineInorder(k.up, base, base');
    }
  }

  /** Moving the successor m, found at the end of k, to the place of t's root
      leaves the in-order sequence short of exactly that root. */
  lemma SuccessorInorder(c: Ctx, t: Tree, k: Ctx, m: Tree)
    requires t.Node? && m.Node? && m.left.Nil?
    requires Spine(k, InRight(c, t.left, t.node, t.color))
    requires Plug(k, m) == Plug(InRight(c, t.left, t.node, t.color), t.right)
    ensures Inorder(Plug(Respine(k, InRight(c, t.left, t.node, t.color), InRight(c, t.left, m.node, t.color)), OnlyChild(m)))
         == BeforeNode(c, t) + AfterNode(c, t)
  {
    var base, base' := InRight(c, t.left, t.node, t.color), InRight(c, t.left, m.node, t.color);
    var k', s := Respine(k, base, base'), OnlyChild(m);
    RespineInorder(k, base, base');
    PlugInorder(k, m);
    PlugInorder(base, t.right);
    PlugInorder(k', s);
    assert Inorder(m) == [m.node] + Inorder(s);
    Assoc(Before(k), Inorder(m), After(k));
    Assoc(Before(k), Inorder(t.right), After(c));
    Cancel(Before(k), Inorder(m) + After(k), AfterNode(c, t));
    Behind(BeforeNode(c, t), m.node, Inorder(s), After(k), AfterNode(c, t));
  }

  lemma Behind<T>(b: seq<T>, x: T, s: seq<T>, a: seq<T>, whole: seq<T>)
    requires [x] + s + a == whole
    ensures b + [x] + s + a == b + whole
  {
    Unnest3(b, x, s, a);
  }

  lemma Assoc<T>(a: seq<T>, b: seq<T>, c: seq<T>)
    ensures a + b + c == a + (b + c)
  {
  }

  lemma Cancel<T>(a: seq<T>, b: seq<T>, c: seq<T>)
    requires a + b == a + c
    ensures b == c
  {
    assert b == (a + b)[|a|..] == (a + c)[|a|..] == c;
  }

  /** The successor's parent is the erased node exactly when the path is empty. */
  lemma SuccessorParent(c: Ctx, t: Tree, k: Ctx, s: Tree)
    requires t.Node? && Spine(k, InRight(c, t.left, t.node, t.color))
    requires NoTwice(Inorder(Plug(k, s)))
    ensures CtxParent(k) == t.node <==> k == InRight(c, t.left, t.node, t.color)
  {
    var base := InRight(c, t.left, t.node, t.color);
    RespineInorder(k, base, base);
    CtxApart(k, s);
    assert Before(base)[|Before(base)| - 1] == t.node;
  }

  /** s' is s without its element x. */
  ghost predicate Erased<T>(s: seq<T>, x: T, s': seq<T>) {
    exists i: nat :: i < |s| && s[i] == x && s' == s[..i] + s[i + 1..]
  }

  lemma ErasedNodes<T>(a: seq<T>, x: T, b: seq<T>)
    ensures Erased(a + [x] + b, x, a + b)
    ensures forall y :: y in a + b ==> y in a + [x] + b
  {
    var s := a + [x] + b;
    assert s[|a|] == x && s[..|a|] == a && s[|a| + 1..] == b;
  }

  // ---- Search order --------------------------------------------------------

  ghost predicate Ordered(s: seq<RbNode>) {
    forall i, j :: 0 <= i < j < |s| ==> s[i].key < s[j].key
  }

  /** key belongs in the hole of c. */
  ghost predicate Belongs(c: Ctx, key: int) {
    && (forall n :: n in Before(c) ==> n.key < key)
    && (forall n :: n in After(c) ==> key < n.key)
  }

  lemma OrderedParts(a: seq<RbNode>, x: RbNode, b: seq<RbNode>)
    requires Ordered(a + [x] + b)
    ensures forall n :: n in a ==> n.key < x.key
    ensures forall n :: n in b ==> x.key < n.key
  {
    var s := a + [x] + b;
    assert s[|a|] == x;
    assert forall i :: 0 <= i < |a| ==> s[i] == a[i];
    assert forall i :: 0 <= i < |b| ==> s[|a| + 1 + i] == b[i];
  }

  /** One comparison of the search: which half key can still be in. */
  lemma SearchStep(c: Ctx, t: Tree, key: int)
    requires t.Node? && Ordered(Inorder(Plug(c, t))) && Belongs(c, key)
    ensures key < t.node.key ==> Belongs(InLeft(c, t.node, t.color, t.right), key)
    ensures key > t.node.key ==> Belongs(InRight(c, t.left, t.node, t.color), key)
  {
    NodeInorder(c, t);
    OrderedParts(BeforeNode(c, t), t.node, AfterNode(c, t));
  }

  /** Where the search ends without the key, no node of the tree has it. */
  lemma NotFound(c: Ctx, key: int)
    requires Belongs(c, key)
    ensures Inorder(Plug(c, Nil)) == Before(c) + After(c)
    ensures forall n :: n in NodeSet(Plug(c, Nil)) ==> n.key != key
  {
    PlugInorder(c, Nil);
  }

  lemma OrderedInsert(a: seq<RbNode>, x: RbNode, b: seq<RbNode>)
    requires Ordered(a + b)
    requires (forall n :: n in a ==> n.key < x.key) && (forall n :: n in b ==> x.key < n.key)
    ensures Ordered(a + [x] + b)
  {
    var s, s' := a + b, a + [x] + b;
    forall i, j | 0 <= i < j < |s'|
      ensures s'[i].key < s'[j].key
    {
      if i == |a| {
        assert s'[j] == b[j - |a| - 1];
      } else if j == |a| {
        assert s'[i] == a[i];
      } else {
        var i', j' := if i < |a| then i else i - 1, if j < |a| then j else j - 1;
        assert s[i'] == s'[i] && s[j'] == s'[j];
      }
    }
  }

  // ---- Height --------------------------------------------------------------

  ghost function Height(t: Tree): nat {
    if t.Nil? then 0
    else 1 + if Height(t.left) > Height(t.right) then Height(t.left) else Height(t.right)
  }

  ghost function Pow2(n: nat): nat {
    if n == 0 then 1 else 2 * Pow2(n - 1)
  }

  lemma {:induction false} BlackHeightBounds(t: Tree, h: nat)
    requires Balanced(t, h) && NoRedRed(t)
    ensures Pow2(h) <= |Inorder(t)| + 1
    ensures Height(t) <= if ColorOf(t) == Red then 2 * h + 1 else 2 * h
  {
    if t.Node? {
      var h' := if t.color == Red then h else h - 1;
      BlackHeightBounds(t.left, h');
      BlackHeightBounds(t.right, h');
    }
  }

  /** The height is at most twice the binary logarithm of the size plus one. */
  lemma HeightIsLogarithmic(t: Tree) returns (h: nat)
    requires RedBlack(t)
    ensures Height(t) <= 2 * h && Pow2(h) <= |Inorder(t)| + 1
  {
    h :| Balanced(t, h);
    BlackHeightBounds(t, h);
  }

  // ---- Traversal -----------------------------------------------------------

  /** The element after x, or null if x is the last one. */
  ghost function Successor(s: seq<RbNode>, x: RbNode): RbNode? {
    if s == [] then null
    else if s[0] == x then if |s| > 1 then s[1] else null
    else Successor(s[1..], x)
  }

  lemma {:induction false} SuccessorAt(a: seq<RbNode>, x: RbNode, b: seq<RbNode>)
    requires NoTwice(a + [x] + b)
    ensures Successor(a + [x] + b, x) == if b == [] then null else b[0]
  {
    var s := a + [x] + b;
    if a == [] {
      assert s[0] == x;
    } else {
      assert s[0] == a[0] && s[|a|] == x && Unequal(s, 0, |a|);
      assert s[1..] == a[1..] + [x] + b;
      assert s == [s[0]] + s[1..];
      NoTwiceSplit([s[0]], s[1..]);
      SuccessorAt(a[1..], x, b);
    }
  }

  lemma {:induction false} RespineInorderTop(k: Ctx)
    requires Spine(k, Top)
    ensures Before(k) == []
  {
    if !k.Top? {
      RespineInorderTop(k.up);
    }
  }

  /** The leftmost node of a right subtree follows the node above it. */
  lemma FirstOfRight(base: Ctx, r: Tree, k: Ctx, m: Tree)
    requires base.InRight? && Spine(k, base) && m.Node? && m.left.Nil? && r.Node?
    requires Plug(k, m) == Plug(base, r)
    ensures (Inorder(r) + After(base))[0] == m.node
  {
    RespineInorder(k, base, base);
    PlugInorder(k, m);
    PlugInorder(base, r);
    Assoc(Before(k), Inorder(m), After(k));
    Assoc(Before(k), Inorder(r), After(base));
    Cancel(Before(k), Inorder(m) + After(k), Inorder(r) + After(base));
    assert Inorder(m)[0] == m.node;
  }
}
