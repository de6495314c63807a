/** Trees and contexts laid out in node objects: what the parent and child links
    of a tree are, and what the writes of the rotations and relinkings do. */
module RbHeap {
  import opened RbModel
  import opened Sequences

  /** What one node object holds, and what all node objects hold. */
  datatype Cell = Cell(parent: RbNode?, left: RbNode?, right: RbNode?, color: Color)
  type Heap = map<RbNode, Cell>

  ghost function WithParent(x: Cell, p: RbNode?): Cell {
    x.(parent := p)
  }

  ghost function WithLeft(x: Cell, l: RbNode?): Cell {
    x.(left := l)
  }

  ghost function WithRight(x: Cell, r: RbNode?): Cell {
    x.(right := r)
  }

  ghost function Snap(nodes: set<RbNode>): Heap
    reads nodes
  {
    map n | n in nodes :: Cell(n.parent, n.left, n.right, n.color)
  }

  /** The fields of the nodes of t link them into exactly the tree t. */
  ghost predicate Linked(t: Tree, parent: RbNode?, h: Heap) {
    t.Node? ==>
      && t.node in h && h[t.node] == Cell(parent, Root(t.left), Root(t.right), t.color)
      && Linked(t.left, t.node, h) && Linked(t.right, t.node, h)
  }

  /** The same for the nodes around a hole that is filled by ptr. */
  ghost predicate CtxLinked(c: Ctx, ptr: RbNode?, h: Heap) {
    match c
    case Top => true
    case InLeft(up, n, col, r) =>
      && n in h && h[n] == Cell(CtxParent(up), ptr, Root(r), col)
      && Linked(r, n, h) && CtxLinked(up, n, h)
    case InRight(up, l, n, col) =>
      && n in h && h[n] == Cell(CtxParent(up), Root(l), ptr, col)
      && Linked(l, n, h) && CtxLinked(up, n, h)
  }

  /** The heap is the tree Plug(c, t), rooted at root. */
  ghost predicate At(c: Ctx, t: Tree, root: RbNode?, h: Heap) {
    && Linked(t, CtxParent(c), h) && CtxLinked(c, Root(t), h)
    && root == CtxRoot(c, Root(t)) && NoTwice(Inorder(Plug(c, t)))
  }

  ghost predicate Agree(h: Heap, h': Heap, nodes: seq<RbNode>) {
    forall n :: n in nodes && n in h ==> n in h' && h'[n] == h[n]
  }

  lemma {:induction false} Frame(t: Tree, parent: RbNode?, h: Heap, h': Heap)
    requires Linked(t, parent, h) && Agree(h, h', Inorder(t))
    ensures Linked(t, parent, h')
  {
    if t.Node? {
      Frame(t.left, t.node, h, h');
      Frame(t.right, t.node, h, h');
    }
  }

  lemma {:induction false} CtxFrame(c: Ctx, ptr: RbNode?, h: Heap, h': Heap)
    requires CtxLinked(c, ptr, h) && Agree(h, h', Before(c)) && Agree(h, h', After(c))
    ensures CtxLinked(c, ptr, h')
  {
    if !c.Top? {
      CtxFrame(c.up, c.node, h, h');
      Frame(if c.InLeft? then c.right else c.left, c.node, h, h');
    }
  }

  lemma {:induction false} PlugAt(c: Ctx, t: Tree, root: RbNode?, h: Heap)
    ensures At(Top, Plug(c, t), root, h) <==> At(c, t, root, h)
  {
    match c
    case Top =>
    case InLeft(up, n, col, r) => PlugAt(up, Node(t, n, col, r), root, h);
    case InRight(up, l, n, col) => PlugAt(up, Node(l, n, col, t), root, h);
  }

  /** t only got another parent. */
  lemma Reparent(t: Tree, was: RbNode?, parent: RbNode?, h: Heap, h': Heap)
    requires Linked(t, was, h) && NoTwice(Inorder(t))
    requires t.Node? ==> t.node in h' && h'[t.node] == WithParent(h[t.node], parent)
    requires forall n :: n in Inorder(t) && n in h && n != Root(t) ==> n in h' && h'[n] == h[n]
    ensures Linked(t, parent, h')
  {
    if t.Node? {
      RootApart(t);
      Frame(t.left, t.node, h, h');
      Frame(t.right, t.node, h, h');
    }
  }

  /** The innermost frame of c now points to ptr. */
  lemma Refill(c: Ctx, t: Tree, was: RbNode?, ptr: RbNode?, h: Heap, h': Heap)
    requires CtxLinked(c, was, h) && NoTwice(Inorder(Plug(c, t)))
    requires !c.Top? ==> c.node in h'
    requires c.InLeft? ==> h'[c.node] == WithLeft(h[c.node], ptr)
    requires c.InRight? ==> h'[c.node] == WithRight(h[c.node], ptr)
    requires forall n :: (n in Before(c) || n in After(c)) && n in h && n != CtxParent(c) ==> n in h' && h'[n] == h[n]
    ensures CtxLinked(c, ptr, h')
  {
    if c.InLeft? {
      CtxApart(c.up, Node(t, c.node, c.color, c.right));
      RootApart(Node(t, c.node, c.color, c.right));
      CtxFrame(c.up, c.node, h, h');
      Frame(c.right, c.node, h, h');
    } else if c.InRight? {
      CtxApart(c.up, Node(c.left, c.node, c.color, t));
      RootApart(Node(c.left, c.node, c.color, t));
      CtxFrame(c.up, c.node, h, h');
      Frame(c.left, c.node, h, h');
    }
  }
  /** What the pointer writes of a left rotation do to the whole heap. */
  lemma RotateLeftAt(c: Ctx, t: Tree, h: Heap, h': Heap, root: RbNode?, root': RbNode?)
    requires At(c, t, root, h) && t.Node? && t.right.Node? && h'.Keys == h.Keys
    requires Linked(t.right, t.node, h) && Linked(t.right.left, t.right.node, h)
    requires var x, y, b, p := t.node, t.right.node, Root(t.right.left), CtxParent(c);
      && h'[x] == WithParent(WithRight(h[x], b), y)
      && h'[y] == WithParent(WithLeft(h[y], x), p)
      && (b != null ==> h'[b] == WithParent(h[b], x))
      && (c.InLeft? ==> h'[p] == WithLeft(h[p], y))
      && (c.InRight? ==> h'[p] == WithRight(h[p], y))
      && (forall n :: n in h && n !in {x, y, b, p} ==> h'[n] == h[n])
      && root' == if p == null then y else root
    ensures At(c, RotatedLeft(t), root', h')
  {
    RotationInorder(t);
    PlugSameInorder(c, t, RotatedLeft(t));
    CtxApart(c, t);
    RootApart(t);
    RootApart(t.right);
    Frame(t.left, t.node, h, h');
    Frame(t.right.right, t.right.node, h, h');
    Reparent(t.right.left, t.right.node, t.node, h, h');
    Refill(c, t, t.node, t.right.node, h, h');
  }

  lemma RotateRightAt(c: Ctx, t: Tree, h: Heap, h': Heap, root: RbNode?, root': RbNode?)
    requires At(c, t, root, h) && t.Node? && t.left.Node? && h'.Keys == h.Keys
    requires Linked(t.left, t.node, h) && Linked(t.left.right, t.left.node, h)
    requires var x, y, b, p := t.node, t.left.node, Root(t.left.right), CtxParent(c);
      && h'[x] == WithParent(WithLeft(h[x], b), y)
      && h'[y] == WithParent(WithRight(h[y], x), p)
      && (b != null ==> h'[b] == WithParent(h[b], x))
      && (c.InLeft? ==> h'[p] == WithLeft(h[p], y))
      && (c.InRight? ==> h'[p] == WithRight(h[p], y))
      && (forall n :: n in h && n !in {x, y, b, p} ==> h'[n] == h[n])
      && root' == if p == null then y else root
    ensures At(c, RotatedRight(t), root', h')
  {
    RotationInorder(t);
    PlugSameInorder(c, t, RotatedRight(t));
    CtxApart(c, t);
    RootApart(t);
    RootApart(t.left);
    Frame(t.right, t.node, h, h');
    Frame(t.left.left, t.left.node, h, h');
    Reparent(t.left.right, t.left.node, t.node, h, h');
    Refill(c, t, t.node, t.left.node, h, h');
  }

  /** The four nodes a left rotation writes to are known and different. */
  lemma RotateLeftCells(c: Ctx, t: Tree, root: RbNode?, h: Heap)
    requires At(c, t, root, h) && t.Node? && t.right.Node?
    ensures Linked(t.right, t.node, h) && Linked(t.right.left, t.right.node, h)
    ensures var x, y, b, p := t.node, t.right.node, Root(t.right.left), CtxParent(c);
      && x in h && y in h && (b != null ==> b in h) && (p != null ==> p in h)
      && x != y && b != x && b != y && p != x && p != y && (p != null ==> b != p)
      && h[x].right == y && h[x].parent == p && h[y].left == b
      && (c.InLeft? ==> h[p].left == x) && (c.InRight? ==> h[p].left != x)
  {
    CtxApart(c, t);
    RootApart(t);
    RootApart(t.right);
  }

  lemma RotateRightCells(c: Ctx, t: Tree, root: RbNode?, h: Heap)
    requires At(c, t, root, h) && t.Node? && t.left.Node?
    ensures Linked(t.left, t.node, h) && Linked(t.left.right, t.left.node, h)
    ensures var x, y, b, p := t.node, t.left.node, Root(t.left.right), CtxParent(c);
      && x in h && y in h && (b != null ==> b in h) && (p != null ==> p in h)
      && x != y && b != x && b != y && p != x && p != y && (p != null ==> b != p)
      && h[x].left == y && h[x].parent == p && h[y].right == b
      && (c.InRight? ==> h[p].right == x) && (c.InLeft? ==> h[p].right != x)
  {
    CtxApart(c, t);
    RootApart(t);
    RootApart(t.left);
  }

  /** Changing the colour of the node in focus. */
  lemma PaintAt(c: Ctx, t: Tree, col: Color, root: RbNode?, h: Heap, h': Heap)
    requires At(c, t, root, h) && t.Node?
    requires t.node in h' && h'[t.node] == h[t.node].(color := col)
    requires forall n :: n in h && n != t.node ==> n in h' && h'[n] == h[n]
    ensures At(c, t.(color := col), root, h')
  {
    CtxApart(c, t);
    RootApart(t);
    PlugSameInorder(c, t, t.(color := col));
    Frame(t.left, t.node, h, h');
    Frame(t.right, t.node, h, h');
    CtxFrame(c, t.node, h, h');
  }

  /** Moving the focus changes nothing in the heap. */
  lemma Zoom(c: Ctx, t: Tree, root: RbNode?, h: Heap)
    requires !c.Top?
    ensures At(c, t, root, h) <==> At(c.up, Up(c, t), root, h)
  {
  }

  /** What the code can read off the nodes around the focus. */
  lemma Grandparent(c: Ctx, t: Tree, root: RbNode?, h: Heap)
    requires At(c, t, root, h) && t.Node? && !c.Top? && !c.up.Top?
    ensures var p, g, u := c.node, c.up.node, Sibling(c.up);
      && t.node in h && h[t.node].parent == p && p in h && h[p].parent == g && g in h
      && (c.up.InLeft? <==> h[g].left == p)
      && (if c.up.InLeft? then h[g].right else h[g].left) == Root(u)
      && (u.Node? ==> u.node in h && h[u.node].color == u.color)
  {
    Zoom(c, t, root, h);
    CtxApart(c.up, Up(c, t));
  }

  lemma ParentCell(c: Ctx, t: Tree, root: RbNode?, h: Heap)
    requires At(c, t, root, h)
    ensures t.Node? ==> t.node in h && h[t.node].parent == CtxParent(c) && h[t.node].color == t.color
    ensures !c.Top? ==> c.node in h && h[c.node].color == c.color && h[c.node].parent == CtxParent(c.up)
  {
  }

  /** The root pointer is inside the context unless the hole is the whole tree. */
  lemma {:induction false} RootInCtx(c: Ctx, ptr: RbNode?)
    requires !c.Top?
    ensures CtxRoot(c, ptr) != null && (CtxRoot(c, ptr) in Before(c) || CtxRoot(c, ptr) in After(c))
  {
    if !c.up.Top? {
      RootInCtx(c.up, c.node);
    }
  }

  lemma RootTest(c: Ctx, t: Tree, root: RbNode?, h: Heap)
    requires At(c, t, root, h)
    ensures root == Root(t) <==> c.Top?
  {
    CtxApart(c, t);
    if !c.Top? {
      RootInCtx(c, Root(t));
      assert t.Node? ==> t.node in Inorder(t);
    }
  }

  /** A node with at most one child is bypassed. */
  lemma UnlinkAt(c: Ctx, t: Tree, root: RbNode?, root': RbNode?, h: Heap, h': Heap)
    requires At(c, t, root, h) && t.Node? && (t.left.Nil? || t.right.Nil?) && h'.Keys == h.Keys
    requires var x, s, p := t.node, Root(OnlyChild(t)), CtxParent(c);
      && (s != null ==> s in h && h'[s] == WithParent(h[s], p))
      && (c.InLeft? ==> h'[p] == WithLeft(h[p], s))
      && (c.InRight? ==> h'[p] == WithRight(h[p], s))
      && (forall n :: n in h && n !in {s, p} ==> h'[n] == h[n])
      && root' == if p == null then s else root
    ensures At(c, OnlyChild(t), root', h')
    ensures t.node !in Inorder(Plug(c, OnlyChild(t)))
  {
    var s := OnlyChild(t);
    NodeInorder(c, t);
    UnlinkInorder(c, t);
    NoTwiceDrop(BeforeNode(c, t), t.node, AfterNode(c, t));
    NotAround(BeforeNode(c, t), t.node, AfterNode(c, t));
    CtxApart(c, t);
    RootApart(t);
    Reparent(s, t.node, CtxParent(c), h, h');
    Refill(c, t, t.node, Root(s), h, h');
  }

  /** A node from outside takes the place of the node in focus. */
  lemma ReplaceAt(c: Ctx, t: Tree, m: RbNode, root: RbNode?, root': RbNode?, h: Heap, h': Heap)
    requires At(c, t, root, h) && t.Node? && m !in Inorder(Plug(c, t)) && h'.Keys == h.Keys
    requires var l, r, p := Root(t.left), Root(t.right), CtxParent(c);
      && m in h && h'[m] == Cell(p, l, r, t.color)
      && (l != null ==> l in h && h'[l] == WithParent(h[l], m))
      && (r != null ==> r in h && h'[r] == WithParent(h[r], m))
      && (c.InLeft? ==> h'[p] == WithLeft(h[p], m))
      && (c.InRight? ==> h'[p] == WithRight(h[p], m))
      && (forall n :: n in h && n !in {m, l, r, p} ==> h'[n] == h[n])
      && root' == if p == null then m else root
    ensures At(c, t.(node := m), root', h')
  {
    var t' := t.(node := m);
    NodeInorder(c, t);
    NodeInorder(c, t');
    PlugInorder(c, t);
    NoTwiceReplace(BeforeNode(c, t), t.node, m, AfterNode(c, t));
    CtxApart(c, t);
    RootApart(t);
    Reparent(t.left, t.node, m, h, h');
    Reparent(t.right, t.node, m, h, h');
    Refill(c, t, t.node, m, h, h');
  }

  /** What can be read off the root of t. */
  ghost predicate Shows(t: Tree, h: Heap) {
    t.Node? ==>
      && t.node in h && h[t.node].color == t.color
      && h[t.node].left == Root(t.left) && h[t.node].right == Root(t.right)
  }

  /** What the code can read off the parent, its children and the nephews. */
  lemma Sides(c: Ctx, s: Tree, root: RbNode?, h: Heap)
    requires At(c, s, root, h) && !c.Top?
    ensures var p, o := c.node, Sibling(c);
      && p in h && h[p].parent == CtxParent(c.up) && h[p].color == c.color
      && (c.InLeft? ==> h[p].left == Root(s) && h[p].right == Root(o))
      && (c.InRight? ==> h[p].right == Root(s) && h[p].left == Root(o))
      && Shows(o, h) && Shows(s, h)
      && (o.Node? ==> o.node != p && Shows(o.left, h) && Shows(o.right, h))
      && (o.Node? || s.Node? ==> Root(o) != Root(s))
  {
    var o := Sibling(c);
    assert Linked(o, c.node, h);
    if o.Node? {
      assert Linked(o.left, o.node, h) && Linked(o.right, o.node, h);
    }
    CtxApart(c, s);
    assert c.node !in Inorder(o) by {
      CtxApart(c.up, Up(c, s));
      RootApart(Up(c, s));
    }
  }

  lemma UnlinkCells(c: Ctx, t: Tree, root: RbNode?, h: Heap)
    requires At(c, t, root, h) && t.Node? && (t.left.Nil? || t.right.Nil?)
    ensures var x, s, p := t.node, Root(OnlyChild(t)), CtxParent(c);
      && x in h && (s != null ==> s in h && s != p) && (p != null ==> p in h)
      && (c.InLeft? ==> h[p].left == x) && (c.InRight? ==> h[p].left != x)
  {
    CtxApart(c, t);
    var s := OnlyChild(t);
    assert Linked(s, t.node, h);
    assert s.Node? ==> s.node in Inorder(s);
    assert t.node in Inorder(t);
  }

  lemma ReplaceCells(c: Ctx, t: Tree, m: RbNode, root: RbNode?, h: Heap)
    requires At(c, t, root, h) && t.Node? && m !in Inorder(Plug(c, t))
    ensures var x, l, r, p := t.node, Root(t.left), Root(t.right), CtxParent(c);
      && x in h && h[x] == Cell(p, l, r, t.color)
      && (l != null ==> l in h) && (r != null ==> r in h) && (p != null ==> p in h)
      && m != x && m != l && m != r && m != p && l != x && r != x && p != x
      && (l != null ==> l != r && l != p) && (r != null ==> r != p)
      && (c.InLeft? ==> h[p].left == x) && (c.InRight? ==> h[p].left != x)
  {
    assert Linked(t.left, t.node, h) && Linked(t.right, t.node, h);
    PlugInorder(c, t);
    CtxApart(c, t);
    RootApart(t);
    assert t.left.Node? ==> t.left.node in Inorder(t.left);
    assert t.right.Node? ==> t.right.node in Inorder(t.right);
  }

  lemma NodeCell(c: Ctx, t: Tree, root: RbNode?, h: Heap)
    requires At(c, t, root, h) && t.Node?
    ensures t.node in h && h[t.node] == Cell(CtxParent(c), Root(t.left), Root(t.right), t.color)
  {
  }

  /** Forgetting nodes that are not in the tree. */
  lemma ShrinkTo(t: Tree, root: RbNode?, S: set<RbNode>, S': set<RbNode>)
    requires At(Top, t, root, Snap(S)) && S' == NodeSet(t)
    ensures At(Top, t, root, Snap(S'))
  {
    Frame(t, null, Snap(S), Snap(S'));
  }

  /** A new leaf in the hole. */
  lemma LinkAt(c: Ctx, x: RbNode, root: RbNode?, root': RbNode?, h: Heap, h': Heap)
    requires At(c, Nil, root, h) && x !in Before(c) && x !in After(c)
    requires var p := CtxParent(c);
      && x in h' && h'[x] == Cell(p, null, null, h'[x].color)
      && (c.InLeft? ==> p in h' && h'[p] == WithLeft(h[p], x))
      && (c.InRight? ==> p in h' && h'[p] == WithRight(h[p], x))
      && (forall n :: n in h && n !in {x, p} ==> n in h' && h'[n] == h[n])
      && root' == if p == null then x else root
    ensures At(c, Node(Nil, x, h'[x].color, Nil), root', h')
  {
    var t := Node(Nil, x, h'[x].color, Nil);
    PlugInorder(c, Nil);
    PlugInorder(c, t);
    assert Inorder(t) == [x];
    var a, b := Before(c), After(c);
    assert a + Inorder(Nil) + b == a + b;
    forall i, j | 0 <= i < j < |a + [x] + b|
      ensures Unequal(a + [x] + b, i, j)
    {
      var s, s' := a + b, a + [x] + b;
      assert i != |a| && j != |a| ==> Unequal(s, if i < |a| then i else i - 1, if j < |a| then j else j - 1);
      assert i < |a| ==> s'[i] == s[i] && s[i] in a;
      assert j < |a| ==> s'[j] == s[j] && s[j] in a;
      assert i > |a| ==> s'[i] == s[i - 1] && s'[i] in b;
      assert j > |a| ==> s'[j] == s[j - 1] && s'[j] in b;
    }
    Refill(c, Nil, null, x, h, h');
  }
}
