/** The red-black tree itself: the functions of cocool/co_rbtree.c and the loops
    that include/co_rbtree.h documents, on node objects with parent links.
    Beside the nodes each method is handed where it is in the tree, as a
    context and a subtree; the lemmas about these say what the writes mean, so
    that a method proves only which writes it makes. */
module RbTrees {
  import opened RbModel
  import opened Sequences
  import opened RbHeap

  class RbTree {
    var root: RbNode?
    ghost var tree: Tree           // the tree the nodes form
    ghost var nodes: set<RbNode>   // the nodes in it

    /** The fields form a tree of the nodes, in any colours, and nothing else. */
    ghost predicate WellLinked()
      reads this, nodes
    {
      At(Top, tree, root, Snap(nodes)) && nodes == NodeSet(tree)
    }

    /** Between calls: that tree is red-black. */
    ghost predicate Valid()
      reads this, nodes
    {
      WellLinked() && RedBlack(tree)
    }

    constructor ()
      ensures Valid() && Inorder(tree) == []
    {
      root, tree, nodes := null, Nil, {};
      new;
      assert Balanced(Nil, 0);
    }

    ghost method Adopt(whole: Tree, S: set<RbNode>)
      requires At(Top, whole, root, Snap(S)) && RedBlack(whole)
      modifies this`tree, this`nodes
      ensures Valid() && tree == whole && nodes == NodeSet(whole)
    {
      ShrinkTo(whole, root, S, NodeSet(whole));
      tree, nodes := whole, NodeSet(whole);
    }

    method RotateLeft(node: RbNode, ghost c: Ctx, ghost t: Tree, ghost S: set<RbNode>)
      requires At(c, t, root, Snap(S))
      requires t.Node? && t.node == node && t.right.Node?
      modifies this`root, S`parent, S`left, S`right
      ensures At(c, RotatedLeft(t), root, Snap(S))
    {
      ghost var h := Snap(S);
      RotateLeftCells(c, t, root, h);
      var right := node.right;
      node.right := right.left;
      if node.right != null {
        right.left.parent := node;
      }
      right.left := node;
      right.parent := node.parent;
      if right.parent != null {
        if node == node.parent.left {
          node.parent.left := right;
        } else {
          node.parent.right := right;
        }
      } else {
        root := right;
      }
      node.parent := right;
      RotateLeftAt(c, t, h, Snap(S), old(root), root);
    }

    method RotateRight(node: RbNode, ghost c: Ctx, ghost t: Tree, ghost S: set<RbNode>)
      requires At(c, t, root, Snap(S))
      requires t.Node? && t.node == node && t.left.Node?
      modifies this`root, S`parent, S`left, S`right
      ensures At(c, RotatedRight(t), root, Snap(S))
    {
      ghost var h := Snap(S);
      RotateRightCells(c, t, root, h);
      var left := node.left;
      node.left := left.right;
      if node.left != null {
        left.right.parent := node;
      }
      left.right := node;
      left.parent := node.parent;
      if left.parent != null {
        if node == node.parent.right {
          node.parent.right := left;
        } else {
          node.parent.left := left;
        }
      } else {
        root := left;
      }
      node.parent := left;
      RotateRightAt(c, t, h, Snap(S), old(root), root);
    }

    method Paint(node: RbNode, col: Color, ghost c: Ctx, ghost t: Tree, ghost S: set<RbNode>)
      requires At(c, t, root, Snap(S)) && t.Node? && t.node == node
      modifies S`color
      ensures At(c, t.(color := col), root, Snap(S))
    {
      ghost var h := Snap(S);
      node.color := col;
      PaintAt(c, t, col, root, h, Snap(S));
    }

    /** The red-uncle case of rb_rebalance, on either side. */
    method RecolorStep(uncle: RbNode, parent: RbNode, gparent: RbNode, ghost c: Ctx, ghost t: Tree, ghost h: nat, ghost S: set<RbNode>)
      returns (ghost c': Ctx, ghost t': Tree, ghost h': nat)
      requires At(c, t, root, Snap(S)) && RedFocus(c, t, h) && !c.Top? && c.color == Red
      requires !c.up.Top? && parent == c.node && gparent == c.up.node
      requires ColorOf(Sibling(c.up)) == Red && uncle == Sibling(c.up).node
      modifies S`color
      ensures At(c', t', root, Snap(S)) && RedFocus(c', t', h') && t'.node == gparent
      ensures Inorder(Plug(c', t')) == Inorder(Plug(c, t))
      ensures Depth(c') < Depth(c)
    {
      RecolorKeeps(c, t, h);
      ghost var P, U := Up(c, t), Sibling(c.up);
      ghost var beside := if c.up.InLeft? then InRight(c.up.up, P, gparent, c.up.color)
                                          else InLeft(c.up.up, gparent, c.up.color, P);
      Zoom(c, t, root, Snap(S));
      Zoom(c.up, P, root, Snap(S));
      Zoom(beside, U, root, Snap(S));
      Paint(uncle, Black, beside, U, S);
      U := U.(color := Black);
      Zoom(beside, U, root, Snap(S));
      ghost var above := if c.up.InLeft? then InLeft(c.up.up, gparent, c.up.color, U)
                                         else InRight(c.up.up, U, gparent, c.up.color);
      Zoom(above, P, root, Snap(S));
      Paint(parent, Black, above, P, S);
      P := P.(color := Black);
      Zoom(above, P, root, Snap(S));
      Paint(gparent, Red, c.up.up, Up(above, P), S);
      c', t', h' := c.up.up, Recolored(c, t), h + 1;
    }

    /** Recolour and rotate at the grandparent: a black uncle, a straight line. */
    method TurnRight(parent: RbNode, gparent: RbNode, ghost c: Ctx, ghost t: Tree, ghost h: nat, ghost S: set<RbNode>)
      returns (ghost c': Ctx, ghost h': nat)
      requires At(c, t, root, Snap(S)) && RedFocus(c, t, h)
      requires c.InLeft? && c.color == Red && c.up.InLeft? && c.up.color == Black
      requires parent == c.node && gparent == c.up.node && ColorOf(c.up.right) == Black
      modifies this`root, S`parent, S`left, S`right, S`color
      ensures At(c', t, root, Snap(S)) && RedFocus(c', t, h')
      ensures Inorder(Plug(c', t)) == Inorder(Plug(c, t))
      ensures Depth(c') < Depth(c)
    {
      ghost var up, u, b := c.up.up, c.up.right, c.right;
      RotateRightKeeps(up, gparent, u, parent, b, t, h);
      Zoom(c, t, root, Snap(S));
      Paint(parent, Black, c.up, Up(c, t), S);
      ghost var P := Node(t, parent, Black, b);
      Zoom(c.up, P, root, Snap(S));
      Paint(gparent, Red, up, Up(c.up, P), S);
      ghost var G := Node(P, gparent, Red, u);
      RotateRight(gparent, up, G, S);
      c', h' := InLeft(up, parent, Black, Node(b, gparent, Red, u)), h;
      Zoom(c', t, root, Snap(S));
      RotationInorder(G);
      PlugSameInorder(up, Up(c.up, Up(c, t)), RotatedRight(G));
    }

    method TurnLeft(parent: RbNode, gparent: RbNode, ghost c: Ctx, ghost t: Tree, ghost h: nat, ghost S: set<RbNode>)
      returns (ghost c': Ctx, ghost h': nat)
      requires At(c, t, root, Snap(S)) && RedFocus(c, t, h)
      requires c.InRight? && c.color == Red && c.up.InRight? && c.up.color == Black
      requires parent == c.node && gparent == c.up.node && ColorOf(c.up.left) == Black
      modifies this`root, S`parent, S`left, S`right, S`color
      ensures At(c', t, root, Snap(S)) && RedFocus(c', t, h')
      ensures Inorder(Plug(c', t)) == Inorder(Plug(c, t))
      ensures Depth(c') < Depth(c)
    {
      ghost var up, u, b := c.up.up, c.up.left, c.left;
      RotateLeftKeeps(up, gparent, u, parent, b, t, h);
      Zoom(c, t, root, Snap(S));
      Paint(parent, Black, c.up, Up(c, t), S);
      ghost var P := Node(b, parent, Black, t);
      Zoom(c.up, P, root, Snap(S));
      Paint(gparent, Red, up, Up(c.up, P), S);
      ghost var G := Node(u, gparent, Red, P);
      RotateLeft(gparent, up, G, S);
      c', h' := InRight(up, Node(u, gparent, Red, b), parent, Black), h;
      Zoom(c', t, root, Snap(S));
      RotationInorder(G);
      PlugSameInorder(up, Up(c.up, Up(c, t)), RotatedLeft(G));
    }

    /** The black-uncle case of rb_rebalance below a left-hand parent. */
    method BlackUncleLeft(node0: RbNode, parent0: RbNode, gparent: RbNode, ghost c: Ctx, ghost t: Tree, ghost h: nat, ghost S: set<RbNode>)
      returns (node: RbNode, ghost c': Ctx, ghost t': Tree, ghost h': nat)
      requires At(c, t, root, Snap(S)) && RedFocus(c, t, h) && t.node == node0
      requires !c.Top? && c.color == Red && c.up.InLeft? && c.up.color == Black
      requires parent0 == c.node && gparent == c.up.node && ColorOf(c.up.right) == Black
      modifies this`root, S`parent, S`left, S`right, S`color
      ensures At(c', t', root, Snap(S)) && RedFocus(c', t', h') && t'.node == node
      ensures Inorder(Plug(c', t')) == Inorder(Plug(c, t))
      ensures Depth(c') < Depth(c)
    {
      var parent := parent0;
      node := node0;
      c', t', h' := c, t, h;
      Zoom(c, t, root, Snap(S));
      CtxApart(c, t);
      if parent.right == node {
        assert c.InRight?;
        ghost var P := Up(c, t);
        StraightenLeftKeeps(c.up, parent, c.left, t, h);
        RotateLeft(parent, c.up, P, S);
        c', t' := InLeft(c.up, node, Red, t.right), Node(c.left, parent, Red, t.left);
        Zoom(c', t', root, Snap(S));
        RotationInorder(P);
        PlugSameInorder(c.up, P, RotatedLeft(P));
        parent, node := node, parent;
      }
      c', h' := TurnRight(parent, gparent, c', t', h, S);
    }

    method BlackUncleRight(node0: RbNode, parent0: RbNode, gparent: RbNode, ghost c: Ctx, ghost t: Tree, ghost h: nat, ghost S: set<RbNode>)
      returns (node: RbNode, ghost c': Ctx, ghost t': Tree, ghost h': nat)
      requires At(c, t, root, Snap(S)) && RedFocus(c, t, h) && t.node == node0
      requires !c.Top? && c.color == Red && c.up.InRight? && c.up.color == Black
      requires parent0 == c.node && gparent == c.up.node && ColorOf(c.up.left) == Black
      modifies this`root, S`parent, S`left, S`right, S`color
      ensures At(c', t', root, Snap(S)) && RedFocus(c', t', h') && t'.node == node
      ensures Inorder(Plug(c', t')) == Inorder(Plug(c, t))
      ensures Depth(c') < Depth(c)
    {
      var parent := parent0;
      node := node0;
      c', t', h' := c, t, h;
      Zoom(c, t, root, Snap(S));
      CtxApart(c, t);
      if parent.left == node {
        assert c.InLeft?;
        ghost var P := Up(c, t);
        StraightenRightKeeps(c.up, parent, c.right, t, h);
        RotateRight(parent, c.up, P, S);
        c', t' := InRight(c.up, t.left, node, Red), Node(t.right, parent, Red, c.right);
        Zoom(c', t', root, Snap(S));
        RotationInorder(P);
        PlugSameInorder(c.up, P, RotatedRight(P));
        parent, node := node, parent;
      }
      c', h' := TurnLeft(parent, gparent, c', t', h, S);
    }

    /** One turn of the loop of rb_rebalance. */
    method ClimbStep(node0: RbNode, parent: RbNode, ghost c: Ctx, ghost t: Tree, ghost h: nat, ghost S: set<RbNode>)
      returns (node: RbNode, ghost c': Ctx, ghost t': Tree, ghost h': nat)
      requires At(c, t, root, Snap(S)) && RedFocus(c, t, h) && t.node == node0
      requires CtxColor(c) == Red && parent == c.node
      modifies this`root, S`parent, S`left, S`right, S`color
      ensures At(c', t', root, Snap(S)) && RedFocus(c', t', h') && t'.node == node
      ensures Inorder(Plug(c', t')) == Inorder(Plug(c, t))
      ensures Depth(c') < Depth(c)
    {
      GrandparentExists(c, t, h);
      Grandparent(c, t, root, Snap(S));
      var gparent := parent.parent;
      if parent == gparent.left {
        var uncle := gparent.right;
        if uncle != null && uncle.color == Red {
          c', t', h' := RecolorStep(uncle, parent, gparent, c, t, h, S);
          node := gparent;
        } else {
          node, c', t', h' := BlackUncleLeft(node0, parent, gparent, c, t, h, S);
        }
      } else {
        var uncle := gparent.left;
        if uncle != null && uncle.color == Red {
          c', t', h' := RecolorStep(uncle, parent, gparent, c, t, h, S);
          node := gparent;
        } else {
          node, c', t', h' := BlackUncleRight(node0, parent, gparent, c, t, h, S);
        }
      }
    }

    /** rb_rebalance: leaf has just been linked in below c0, in any colour. */
    method Rebalance(leaf: RbNode, ghost c0: Ctx, ghost S: set<RbNode>) returns (ghost whole: Tree)
      requires RedBlack(Plug(c0, Nil))
      requires At(c0, Node(Nil, leaf, leaf.color, Nil), root, Snap(S))
      modifies this`root, S`parent, S`left, S`right, S`color
      ensures At(Top, whole, root, Snap(S)) && RedBlack(whole)
      ensures Inorder(whole) == Before(c0) + [leaf] + After(c0)
    {
      var node := leaf;
      ghost var c, t := c0, Node(Nil, leaf, Red, Nil);
      ghost var h := RedLeaf(leaf, c0, S);
      ghost var s := Inorder(Plug(c, t));
      while node.parent != null && node.parent.color == Red
        invariant At(c, t, root, Snap(S)) && RedFocus(c, t, h) && t.node == node
        invariant Inorder(Plug(c, t)) == s
        decreases Depth(c)
      {
        ParentCell(c, t, root, Snap(S));
        node, c, t, h := ClimbStep(node, node.parent, c, t, h, S);
      }
      ParentCell(c, t, root, Snap(S));
      whole := BlackenRoot(c, t, h, S);
    }

    /** The first write of rb_rebalance. */
    method RedLeaf(leaf: RbNode, ghost c: Ctx, ghost S: set<RbNode>) returns (ghost h: nat)
      requires RedBlack(Plug(c, Nil)) && At(c, Node(Nil, leaf, leaf.color, Nil), root, Snap(S))
      modifies S`color
      ensures At(c, Node(Nil, leaf, Red, Nil), root, Snap(S)) && RedFocus(c, Node(Nil, leaf, Red, Nil), h)
      ensures Inorder(Plug(c, Node(Nil, leaf, Red, Nil))) == Before(c) + [leaf] + After(c)
    {
      h := UnplugRedBlack(c, Nil);
      Paint(leaf, Red, c, Node(Nil, leaf, leaf.color, Nil), S);
      PlugInorder(c, Node(Nil, leaf, Red, Nil));
    }

    /** The last write of rb_rebalance. */
    method BlackenRoot(ghost c: Ctx, ghost t: Tree, ghost h: nat, ghost S: set<RbNode>) returns (ghost whole: Tree)
      requires At(c, t, root, Snap(S)) && RedFocus(c, t, h) && CtxColor(c) == Black
      modifies S`color
      ensures At(Top, whole, root, Snap(S)) && RedBlack(whole)
      ensures Inorder(whole) == Inorder(Plug(c, t))
    {
      whole := ClimbDone(c, t, h);
      PlugAt(c, t, root, Snap(S));
      Paint(root, Black, Top, whole, S);
      whole := whole.(color := Black);
    }

    // ---- Erasure ---------------------------------------------------------

    /** The head of the left branch of rb_erase_rebalance: a red sibling is
        rotated above the parent, which gives the parent a black one. */
    method RedSiblingLeftStep(parent: RbNode, other: RbNode, ghost c: Ctx, ghost s: Tree, ghost h: nat, ghost S: set<RbNode>)
      returns (ghost c': Ctx)
      requires At(c, s, root, Snap(S)) && Short(c, s, h)
      requires c.InLeft? && parent == c.node && ColorOf(c.right) == Red && other == c.right.node
      modifies this`root, S`parent, S`left, S`right, S`color
      ensures At(c', s, root, Snap(S)) && Short(c', s, h)
      ensures c'.InLeft? && c'.node == parent && c'.color == Red && ColorOf(c'.right) == Black
      ensures Depth(c') == Depth(c) + 1 && Inorder(Plug(c', s)) == Inorder(Plug(c, s))
    {
      SiblingExists(c, s, h);
      RedSiblingLeft(c, s, h);
      ghost var o := c.right;
      ghost var beside := InRight(c.up, s, parent, c.color);
      Zoom(c, s, root, Snap(S));
      Zoom(beside, o, root, Snap(S));
      Paint(other, Black, beside, o, S);
      o := Painted(o, Black);
      Zoom(beside, o, root, Snap(S));
      Paint(parent, Red, c.up, Up(beside, o), S);
      ghost var P := Node(s, parent, Red, o);
      RotateLeft(parent, c.up, P, S);
      c' := InLeft(InLeft(c.up, o.node, Black, o.right), parent, Red, o.left);
      Zoom(c', s, root, Snap(S));
      Zoom(c'.up, Up(c', s), root, Snap(S));
      RotationInorder(P);
      PlugSameInorder(c.up, Up(c, s), RotatedLeft(P));
    }

    /** The tail of the left branch: a red nephew pays the debt for good. */
    method PayLeft(parent: RbNode, other0: RbNode, ghost c: Ctx, ghost s: Tree, ghost h: nat, ghost S: set<RbNode>)
      returns (ghost whole: Tree)
      requires At(c, s, root, Snap(S)) && Short(c, s, h) && ColorOf(s) == Black
      requires c.InLeft? && parent == c.node && c.right.Node? && other0 == c.right.node && c.right.color == Black
      requires !BlackNephews(c.right)
      modifies this`root, S`parent, S`left, S`right, S`color
      ensures At(Top, whole, root, Snap(S)) && RedBlack(whole)
      ensures Inorder(whole) == Inorder(Plug(c, s))
    {
      var other := other0;
      ghost var c1 := c;
      Sides(c, s, root, Snap(S));
      if other.right == null || other.right.color == Black {
        c1 := FarLeftStep(parent, other, c, s, h, S);
        Sides(c1, s, root, Snap(S));
        other := parent.right;
      }
      whole := PayFarLeft(parent, other, c1, s, h, S);
    }

    method FarLeftStep(parent: RbNode, other: RbNode, ghost c: Ctx, ghost s: Tree, ghost h: nat, ghost S: set<RbNode>)
      returns (ghost c': Ctx)
      requires At(c, s, root, Snap(S)) && Short(c, s, h)
      requires c.InLeft? && parent == c.node && c.right.Node? && other == c.right.node && c.right.color == Black
      requires ColorOf(c.right.left) == Red && ColorOf(c.right.right) == Black
      modifies this`root, S`parent, S`left, S`right, S`color
      ensures c' == FarLeft(c) && At(c', s, root, Snap(S)) && Short(c', s, h)
      ensures Inorder(Plug(c', s)) == Inorder(Plug(c, s))
    {
      FarLeftKeeps(c, s, h);
      c' := FarLeft(c);
      ghost var o := c.right;
      ghost var beside := InRight(c.up, s, parent, c.color);
      Zoom(c, s, root, Snap(S));
      Zoom(beside, o, root, Snap(S));
      Sides(InLeft(beside, o.node, Black, o.right), o.left, root, Snap(S));
      ghost var above := InLeft(beside, o.node, Black, o.right);
      Zoom(above, o.left, root, Snap(S));
      var oLeft := other.left;
      if oLeft != null {
        Paint(oLeft, Black, above, o.left, S);
      }
      Zoom(above, Painted(o.left, Black), root, Snap(S));
      Paint(other, Red, beside, Up(above, Painted(o.left, Black)), S);
      ghost var O := Node(Painted(o.left, Black), other, Red, o.right);
      RotateRight(other, beside, O, S);
      Zoom(beside, RotatedRight(O), root, Snap(S));
      Zoom(c', s, root, Snap(S));
      RotationInorder(O);
      assert Inorder(O) == Inorder(o) by {
        assert Inorder(Painted(o.left, Black)) == Inorder(o.left);
      }
      PlugSameInorder(beside, o, RotatedRight(O));
    }

    method PayFarLeft(parent: RbNode, other: RbNode, ghost c: Ctx, ghost s: Tree, ghost h: nat, ghost S: set<RbNode>)
      returns (ghost whole: Tree)
      requires At(c, s, root, Snap(S)) && Short(c, s, h) && ColorOf(s) == Black
      requires c.InLeft? && parent == c.node && c.right.Node? && other == c.right.node && c.right.color == Black
      requires ColorOf(c.right.right) == Red
      modifies this`root, S`parent, S`left, S`right, S`color
      ensures At(Top, whole, root, Snap(S)) && RedBlack(whole)
      ensures Inorder(whole) == Inorder(Plug(c, s))
    {
      PaidLeftOk(c, s, h);
      ghost var o := c.right;
      ghost var beside := InRight(c.up, s, parent, c.color);
      Sides(c, s, root, Snap(S));
      Zoom(c, s, root, Snap(S));
      Zoom(beside, o, root, Snap(S));
      Paint(other, parent.color, beside, o, S);
      o := Painted(o, c.color);
      Zoom(beside, o, root, Snap(S));
      Paint(parent, Black, c.up, Up(beside, o), S);
      beside := InRight(c.up, s, parent, Black);
      Zoom(beside, o, root, Snap(S));
      ghost var far := InRight(beside, o.left, o.node, o.color);
      Zoom(far, o.right, root, Snap(S));
      Sides(far, o.right, root, Snap(S));
      if other.right != null {
        Paint(other.right, Black, far, o.right, S);
      }
      o := Node(o.left, o.node, o.color, Painted(o.right, Black));
      Zoom(far, o.right, root, Snap(S));
      Zoom(beside, o, root, Snap(S));
      RotateLeft(parent, c.up, Node(s, parent, Black, o), S);
      whole := Plug(c.up, PaidLeft(c, s));
      PlugAt(c.up, PaidLeft(c, s), root, Snap(S));
    }

    // The mirror images, for the right branch.

    method RedSiblingRightStep(parent: RbNode, other: RbNode, ghost c: Ctx, ghost s: Tree, ghost h: nat, ghost S: set<RbNode>)
      returns (ghost c': Ctx)
      requires At(c, s, root, Snap(S)) && Short(c, s, h)
      requires c.InRight? && parent == c.node && ColorOf(c.left) == Red && other == c.left.node
      modifies this`root, S`parent, S`right, S`left, S`color
      ensures At(c', s, root, Snap(S)) && Short(c', s, h)
      ensures c'.InRight? && c'.node == parent && c'.color == Red && ColorOf(c'.left) == Black
      ensures Depth(c') == Depth(c) + 1 && Inorder(Plug(c', s)) == Inorder(Plug(c, s))
    {
      SiblingExists(c, s, h);
      RedSiblingRight(c, s, h);
      ghost var o := c.left;
      ghost var beside := InLeft(c.up, parent, c.color, s);
      Zoom(c, s, root, Snap(S));
      Zoom(beside, o, root, Snap(S));
      Paint(other, Black, beside, o, S);
      o := Painted(o, Black);
      Zoom(beside, o, root, Snap(S));
      Paint(parent, Red, c.up, Up(beside, o), S);
      ghost var P := Node(o, parent, Red, s);
      RotateRight(parent, c.up, P, S);
      c' := InRight(InRight(c.up, o.left, o.node, Black), o.right, parent, Red);
      Zoom(c', s, root, Snap(S));
      Zoom(c'.up, Up(c', s), root, Snap(S));
      RotationInorder(P);
      PlugSameInorder(c.up, Up(c, s), RotatedRight(P));
    }

    method PayRight(parent: RbNode, other0: RbNode, ghost c: Ctx, ghost s: Tree, ghost h: nat, ghost S: set<RbNode>)
      returns (ghost whole: Tree)
      requires At(c, s, root, Snap(S)) && Short(c, s, h) && ColorOf(s) == Black
      requires c.InRight? && parent == c.node && c.left.Node? && other0 == c.left.node && c.left.color == Black
      requires !BlackNephews(c.left)
      modifies this`root, S`parent, S`right, S`left, S`color
      ensures At(Top, whole, root, Snap(S)) && RedBlack(whole)
      ensures Inorder(whole) == Inorder(Plug(c, s))
    {
      var other := other0;
      ghost var c1 := c;
      Sides(c, s, root, Snap(S));
      if other.left == null || other.left.color == Black {
        c1 := FarRightStep(parent, other, c, s, h, S);
        Sides(c1, s, root, Snap(S));
        other := parent.left;
      }
      whole := PayFarRight(parent, other, c1, s, h, S);
    }

    method FarRightStep(parent: RbNode, other: RbNode, ghost c: Ctx, ghost s: Tree, ghost h: nat, ghost S: set<RbNode>)
      returns (ghost c': Ctx)
      requires At(c, s, root, Snap(S)) && Short(c, s, h)
      requires c.InRight? && parent == c.node && c.left.Node? && other == c.left.node && c.left.color == Black
      requires ColorOf(c.left.right) == Red && ColorOf(c.left.left) == Black
      modifies this`root, S`parent, S`right, S`left, S`color
      ensures c' == FarRight(c) && At(c', s, root, Snap(S)) && Short(c', s, h)
      ensures Inorder(Plug(c', s)) == Inorder(Plug(c, s))
    {
      FarRightKeeps(c, s, h);
      c' := FarRight(c);
      ghost var o := c.left;
      ghost var beside := InLeft(c.up, parent, c.color, s);
      Zoom(c, s, root, Snap(S));
      Zoom(beside, o, root, Snap(S));
      Sides(InRight(beside, o.left, o.node, Black), o.right, root, Snap(S));
      ghost var above := InRight(beside, o.left, o.node, Black);
      Zoom(above, o.right, root, Snap(S));
      var oRight := other.right;
      if oRight != null {
        Paint(oRight, Black, above, o.right, S);
      }
      Zoom(above, Painted(o.right, Black), root, Snap(S));
      Paint(other, Red, beside, Up(above, Painted(o.right, Black)), S);
      ghost var O := Node(o.left, other, Red, Painted(o.right, Black));
      RotateLeft(other, beside, O, S);
      Zoom(beside, RotatedLeft(O), root, Snap(S));
      Zoom(c', s, root, Snap(S));
      RotationInorder(O);
      assert Inorder(O) == Inorder(o) by {
        assert Inorder(Painted(o.right, Black)) == Inorder(o.right);
      }
      PlugSameInorder(beside, o, RotatedLeft(O));
    }

    method PayFarRight(parent: RbNode, other: RbNode, ghost c: Ctx, ghost s: Tree, ghost h: nat, ghost S: set<RbNode>)
      returns (ghost whole: Tree)
      requires At(c, s, root, Snap(S)) && Short(c, s, h) && ColorOf(s) == Black
      requires c.InRight? && parent == c.node && c.left.Node? && other == c.left.node && c.left.color == Black
      requires ColorOf(c.left.left) == Red
      modifies this`root, S`parent, S`right, S`left, S`color
      ensures At(Top, whole, root, Snap(S)) && RedBlack(whole)
      ensures Inorder(whole) == Inorder(Plug(c, s))
    {
      PaidRightOk(c, s, h);
      ghost var o := c.left;
      ghost var beside := InLeft(c.up, parent, c.color, s);
      Sides(c, s, root, Snap(S));
      Zoom(c, s, root, Snap(S));
      Zoom(beside, o, root, Snap(S));
      Paint(other, parent.color, beside, o, S);
      o := Painted(o, c.color);
      Zoom(beside, o, root, Snap(S));
      Paint(parent, Black, c.up, Up(beside, o), S);
      beside := InLeft(c.up, parent, Black, s);
      Zoom(beside, o, root, Snap(S));
      ghost var far := InLeft(beside, o.node, o.color, o.right);
      Zoom(far, o.left, root, Snap(S));
      Sides(far, o.left, root, Snap(S));
      if other.left != null {
        Paint(other.left, Black, far, o.left, S);
      }
      o := Node(Painted(o.left, Black), o.node, o.color, o.right);
      Zoom(far, o.left, root, Snap(S));
      Zoom(beside, o, root, Snap(S));
      RotateRight(parent, c.up, Node(o, parent, Black, s), S);
      whole := Plug(c.up, PaidRight(c, s));
      PlugAt(c.up, PaidRight(c, s), root, Snap(S));
    }

    /** One turn of the loop of rb_erase_rebalance, on the left branch. */
    method ShortStepLeft(child0: RbNode?, parent0: RbNode, ghost c: Ctx, ghost s: Tree, ghost h: nat, ghost S: set<RbNode>)
      returns (child: RbNode?, parent: RbNode?, ghost c': Ctx, ghost s': Tree, ghost h': nat)
      requires At(c, s, root, Snap(S)) && Short(c, s, h) && ColorOf(s) == Black
      requires c.InLeft? && parent0 == c.node && child0 == Root(s)
      modifies this`root, S`parent, S`left, S`right, S`color
      ensures At(c', s', root, Snap(S)) && Short(c', s', h') && child == Root(s')
      ensures !c'.Top? ==> parent == CtxParent(c')
      ensures Inorder(Plug(c', s')) == Inorder(Plug(c, s))
      ensures c'.Top? || Depth(c') < Depth(c) || (Depth(c') == Depth(c) && ColorOf(s') == Red)
    {
      child, parent, c', s', h' := child0, parent0, c, s, h;
      SiblingExists(c, s, h);
      Sides(c, s, root, Snap(S));
      var other := parent.right;
      if other.color == Red {
        c' := RedSiblingLeftStep(parent, other, c, s, h, S);
        SiblingExists(c', s, h);
        Sides(c', s, root, Snap(S));
        other := parent.right;
      }
      if (other.left == null || other.left.color == Black) && (other.right == null || other.right.color == Black) {
        c', s', h' := ReddenStep(other, c', s, h, S);
        child := parent;
        ParentCell(c', s', root, Snap(S));
        parent := child.parent;
      } else {
        s' := PayLeft(parent, other, c', s, h, S);
        child := root;
        c' := Top;
        h' :| Balanced(s', h');
      }
    }

    method ShortStepRight(child0: RbNode?, parent0: RbNode, ghost c: Ctx, ghost s: Tree, ghost h: nat, ghost S: set<RbNode>)
      returns (child: RbNode?, parent: RbNode?, ghost c': Ctx, ghost s': Tree, ghost h': nat)
      requires At(c, s, root, Snap(S)) && Short(c, s, h) && ColorOf(s) == Black
      requires c.InRight? && parent0 == c.node && child0 == Root(s)
      modifies this`root, S`parent, S`left, S`right, S`color
      ensures At(c', s', root, Snap(S)) && Short(c', s', h') && child == Root(s')
      ensures !c'.Top? ==> parent == CtxParent(c')
      ensures Inorder(Plug(c', s')) == Inorder(Plug(c, s))
      ensures c'.Top? || Depth(c') < Depth(c) || (Depth(c') == Depth(c) && ColorOf(s') == Red)
    {
      child, parent, c', s', h' := child0, parent0, c, s, h;
      SiblingExists(c, s, h);
      Sides(c, s, root, Snap(S));
      var other := parent.left;
      if other.color == Red {
        c' := RedSiblingRightStep(parent, other, c, s, h, S);
        SiblingExists(c', s, h);
        Sides(c', s, root, Snap(S));
        other := parent.left;
      }
      if (other.left == null || other.left.color == Black) && (other.right == null || other.right.color == Black) {
        c', s', h' := ReddenStep(other, c', s, h, S);
        child := parent;
        ParentCell(c', s', root, Snap(S));
        parent := child.parent;
      } else {
        s' := PayRight(parent, other, c', s, h, S);
        child := root;
        c' := Top;
        h' :| Balanced(s', h');
      }
    }

    /** Both nephews black: the sibling turns red and the parent owes instead. */
    method ReddenStep(other: RbNode, ghost c: Ctx, ghost s: Tree, ghost h: nat, ghost S: set<RbNode>)
      returns (ghost c': Ctx, ghost s': Tree, ghost h': nat)
      requires At(c, s, root, Snap(S)) && Short(c, s, h) && ColorOf(s) == Black && !c.Top?
      requires BlackNephews(Sibling(c)) && Sibling(c).color == Black && other == Sibling(c).node
      modifies S`color
      ensures At(c', s', root, Snap(S)) && Short(c', s', h')
      ensures s'.Node? && s'.node == c.node && s'.color == c.color
      ensures Inorder(Plug(c', s')) == Inorder(Plug(c, s))
      ensures Depth(c') == Depth(c) - 1
    {
      ReddenSibling(c, s, h);
      ghost var beside := if c.InLeft? then InRight(c.up, s, c.node, c.color) else InLeft(c.up, c.node, c.color, s);
      Zoom(c, s, root, Snap(S));
      Zoom(beside, Sibling(c), root, Snap(S));
      Paint(other, Red, beside, Sibling(c), S);
      Zoom(beside, Painted(Sibling(c), Red), root, Snap(S));
      c', s' := c.up, Up(SiblingPainted(c, Red), s);
      h' := if c.color == Black then h + 1 else h;
    }

    method EraseRebalance(child0: RbNode?, parent0: RbNode?, ghost c0: Ctx, ghost s0: Tree, ghost h0: nat, ghost S: set<RbNode>)
      returns (ghost whole: Tree)
      requires At(c0, s0, root, Snap(S)) && Short(c0, s0, h0)
      requires child0 == Root(s0) && parent0 == CtxParent(c0)
      modifies this`root, S`parent, S`left, S`right, S`color
      ensures At(Top, whole, root, Snap(S)) && RedBlack(whole)
      ensures Inorder(whole) == Inorder(Plug(c0, s0))
    {
      var child, parent := child0, parent0;
      ghost var c, s, h := c0, s0, h0;
      RootTest(c, s, root, Snap(S));
      ParentCell(c, s, root, Snap(S));
      while (child == null || child.color == Black) && child != root
        invariant At(c, s, root, Snap(S)) && Short(c, s, h)
        invariant child == Root(s) && (!c.Top? ==> parent == CtxParent(c))
        invariant child == root <==> c.Top?
        invariant s.Node? ==> child.color == s.color
        invariant Inorder(Plug(c, s)) == Inorder(Plug(c0, s0))
        decreases Depth(c), if ColorOf(s) == Black then 1 else 0
      {
        Sides(c, s, root, Snap(S));
        if parent.left == child {
          child, parent, c, s, h := ShortStepLeft(child, parent, c, s, h, S);
        } else {
          child, parent, c, s, h := ShortStepRight(child, parent, c, s, h, S);
        }
        RootTest(c, s, root, Snap(S));
        ParentCell(c, s, root, Snap(S));
      }
      ShortDone(c, s, h);
      if child != null {
        Paint(child, Black, c, s, S);
      }
      whole := Plug(c, Painted(s, Black));
      PlugAt(c, Painted(s, Black), root, Snap(S));
    }

    /** The writes of rb_erase that bypass a node with at most one child. */
    method Unlink(node: RbNode, child: RbNode?, parent: RbNode?, ghost c: Ctx, ghost t: Tree, ghost S: set<RbNode>)
      requires At(c, t, root, Snap(S)) && t.Node? && t.node == node && (t.left.Nil? || t.right.Nil?)
      requires child == Root(OnlyChild(t)) && parent == CtxParent(c)
      modifies this`root, S`parent, S`left, S`right
      ensures At(c, OnlyChild(t), root, Snap(S))
      ensures node !in Inorder(Plug(c, OnlyChild(t)))
      ensures node.parent == old(node.parent)
    {
      ghost var h := Snap(S);
      UnlinkCells(c, t, root, h);
      if child != null {
        child.parent := parent;
      }
      if parent != null {
        if parent.left == node {
          parent.left := child;
        } else {
          parent.right := child;
        }
      } else {
        root := child;
      }
      UnlinkAt(c, t, old(root), root, h, Snap(S));
    }

    /** The writes of rb_erase that put node where old is. */
    method TakePlace(gone: RbNode, node: RbNode, ghost c: Ctx, ghost t: Tree, ghost S: set<RbNode>)
      requires At(c, t, root, Snap(S)) && t.Node? && t.node == gone && t.left.Node?
      requires node in S && node !in Inorder(Plug(c, t))
      modifies this`root, S`parent, S`left, S`right, S`color
      ensures At(c, t.(node := node), root, Snap(S))
    {
      ghost var h := Snap(S);
      ReplaceCells(c, t, node, root, h);
      node.parent := gone.parent;
      node.color := gone.color;
      node.right := gone.right;
      node.left := gone.left;
      if gone.parent != null {
        if gone.parent.left == gone {
          gone.parent.left := node;
        } else {
          gone.parent.right := node;
        }
      } else {
        root := node;
      }
      gone.left.parent := node;
      if gone.right != null {
        gone.right.parent := node;
      }
      ReplaceAt(c, t, node, old(root), root, h, Snap(S));
    }

    /** rb_erase */
    method Erase(node: RbNode)
      requires Valid() && node in nodes
      modifies this, nodes
      ensures Valid()
      ensures Erased(old(Inorder(tree)), node, Inorder(tree))
    {
      ghost var c, t := FindPlace(tree, node);
      PlugAt(c, t, root, Snap(nodes));
      NodeInorder(c, t);
      ghost var S := nodes;
      ghost var whole := EraseAt(node, c, t, S);
      ErasedNodes(BeforeNode(c, t), node, AfterNode(c, t));
      Adopt(whole, S);
    }

    method EraseAt(node: RbNode, ghost c: Ctx, ghost t: Tree, ghost S: set<RbNode>)
      returns (ghost whole: Tree)
      requires At(c, t, root, Snap(S)) && t.Node? && t.node == node && RedBlack(Plug(c, t))
      modifies this`root, S
      ensures At(Top, whole, root, Snap(S)) && RedBlack(whole)
      ensures Inorder(whole) == BeforeNode(c, t) + AfterNode(c, t)
    {
      NodeCell(c, t, root, Snap(S));
      if node.left == null || node.right == null {
        var child := if node.left == null then node.right else node.left;
        whole := EraseThin(node, child, c, t, S);
      } else {
        whole := EraseFull(node, c, t, S);
      }
    }

    /** rb_erase for a node with at most one child. */
    method EraseThin(node: RbNode, child: RbNode?, ghost c: Ctx, ghost t: Tree, ghost S: set<RbNode>)
      returns (ghost whole: Tree)
      requires At(c, t, root, Snap(S)) && t.Node? && t.node == node && (t.left.Nil? || t.right.Nil?)
      requires RedBlack(Plug(c, t)) && child == Root(OnlyChild(t))
      modifies this`root, S
      ensures At(Top, whole, root, Snap(S)) && RedBlack(whole)
      ensures Inorder(whole) == BeforeNode(c, t) + AfterNode(c, t)
    {
      ghost var h := UnlinkColors(c, t);
      UnlinkInorder(c, t);
      NodeCell(c, t, root, Snap(S));
      var parent, color := node.parent, node.color;
      Unlink(node, child, parent, c, t, S);
      if color == Black {
        whole := EraseRebalance(child, parent, c, OnlyChild(t), h, S);
      } else {
        whole := Plug(c, OnlyChild(t));
        PlugAt(c, OnlyChild(t), root, Snap(S));
      }
    }

    /** rb_erase for a node with two children: its successor takes its place. */
    method EraseFull(gone: RbNode, ghost c: Ctx, ghost t: Tree, ghost S: set<RbNode>)
      returns (ghost whole: Tree)
      requires At(c, t, root, Snap(S)) && t.Node? && t.node == gone && t.left.Node? && t.right.Node?
      requires RedBlack(Plug(c, t))
      modifies this`root, S
      ensures At(Top, whole, root, Snap(S)) && RedBlack(whole)
      ensures Inorder(whole) == BeforeNode(c, t) + AfterNode(c, t)
    {
      ghost var base := InRight(c, t.left, gone, t.color);
      NodeCell(c, t, root, Snap(S));
      var node, k, m := LeftmostBelow(gone.right, base, t.right, S);
      ghost var h := UnlinkColors(k, m);
      NodeCell(k, m, root, Snap(S));
      var child, color := node.right, node.color;
      var parent := MoveUp(gone, node, child, c, t, k, m, S);
      ghost var base', s := InRight(c, t.left, node, t.color), OnlyChild(m);
      ghost var k' := Respine(k, base, base');
      if color == Black {
        RespineOk(k, base, base', h + 1);
        whole := EraseRebalance(child, parent, k', s, h, S);
      } else {
        h := UnplugRedBlack(k, s);
        RespineOk(k, base, base', h);
        PlugRedBlack(k', s, h);
        whole := Plug(k', s);
        PlugAt(k', s, root, Snap(S));
      }
    }

    /** Unlink the successor node, found at the end of k, and put it where gone is. */
    method MoveUp(gone: RbNode, node: RbNode, child: RbNode?, ghost c: Ctx, ghost t: Tree, ghost k: Ctx, ghost m: Tree, ghost S: set<RbNode>)
      returns (parent: RbNode?)
      requires t.Node? && t.node == gone && t.left.Node? && At(k, m, root, Snap(S))
      requires m.Node? && m.node == node && m.left.Nil? && child == Root(OnlyChild(m))
      requires Spine(k, InRight(c, t.left, gone, t.color)) && Plug(k, m) == Plug(InRight(c, t.left, gone, t.color), t.right)
      modifies this`root, S
      ensures var base, base' := InRight(c, t.left, gone, t.color), InRight(c, t.left, node, t.color);
        && At(Respine(k, base, base'), OnlyChild(m), root, Snap(S))
        && parent == CtxParent(Respine(k, base, base'))
        && Inorder(Plug(Respine(k, base, base'), OnlyChild(m))) == BeforeNode(c, t) + AfterNode(c, t)
    {
      NodeCell(k, m, root, Snap(S));
      parent := node.parent;
      Unlink(node, child, parent, k, m, S);
      ghost var base, base', s := InRight(c, t.left, gone, t.color), InRight(c, t.left, node, t.color), OnlyChild(m);
      ghost var H := Hang(k, base, s);
      SuccessorParent(c, t, k, s);
      if node.parent == gone {
        parent := node;
      }
      HangPlug(k, base, base', s);
      PlugAt(k, s, root, Snap(S));
      PlugAt(c, Node(t.left, gone, t.color, H), root, Snap(S));
      TakePlace(gone, node, c, Node(t.left, gone, t.color, H), S);
      PlugAt(c, Node(t.left, node, t.color, H), root, Snap(S));
      PlugAt(Respine(k, base, base'), s, root, Snap(S));
      SuccessorInorder(c, t, k, m);
    }

    /** Descend to the left from a subtree hanging in base. */
    method LeftmostBelow(start: RbNode, ghost base: Ctx, ghost t: Tree, ghost S: set<RbNode>)
      returns (node: RbNode, ghost k: Ctx, ghost m: Tree)
      requires At(base, t, root, Snap(S)) && t.Node? && t.node == start
      ensures At(k, m, root, Snap(S)) && m.Node? && m.node == node && m.left.Nil?
      ensures Spine(k, base) && Plug(k, m) == Plug(base, t)
    {
      node, k, m := start, base, t;
      NodeCell(k, m, root, Snap(S));
      while node.left != null
        invariant At(k, m, root, Snap(S)) && m.Node? && m.node == node
        invariant node in S && node.left == Root(m.left)
        invariant Spine(k, base) && Plug(k, m) == Plug(base, t)
        decreases m
      {
        node, k, m := node.left, InLeft(k, m.node, m.color, m.right), m.left;
        NodeCell(k, m, root, Snap(S));
      }
    }

    // ---- Search, insertion and traversal ---------------------------------

    /** The insertion the header documents: search for the key, link the node
        as a leaf where the search ends, rebalance. */
    method Insert(node: RbNode) returns (found: RbNode?)
      requires Valid() && Ordered(Inorder(tree)) && node !in nodes
      modifies this, nodes, node
      ensures Valid() && Ordered(Inorder(tree))
      ensures found != null ==>
                && found in nodes && found.key == node.key
                && unchanged(this) && unchanged(nodes) && unchanged(node)
      ensures found == null ==>
                && (forall n :: n in old(nodes) ==> n.key != node.key)
                && Erased(Inorder(tree), node, old(Inorder(tree)))
    {
      ghost var c;
      var parent, onLeft;
      found, parent, onLeft, c := Search(node.key);
      if found != null {
        return;
      }
      InsertLeaf(node, parent, onLeft, c);
    }

    method InsertLeaf(node: RbNode, parent: RbNode?, onLeft: bool, ghost c: Ctx)
      requires Valid() && node !in nodes && Plug(c, Nil) == tree && At(c, Nil, root, Snap(nodes))
      requires Inorder(tree) == Before(c) + After(c) && Ordered(Before(c) + After(c)) && Belongs(c, node.key)
      requires parent == CtxParent(c) && (onLeft <==> c.InLeft?)
      modifies this, nodes, node
      ensures Valid() && Ordered(Inorder(tree))
      ensures Erased(Inorder(tree), node, old(Inorder(tree)))
    {
      ghost var S := nodes + {node};
      assert S - {node} == nodes;
      LinkLeaf(node, parent, onLeft, c, S);
      ghost var whole := Rebalance(node, c, S);
      OrderedInsert(Before(c), node, After(c));
      ErasedNodes(Before(c), node, After(c));
      Adopt(whole, S);
    }

    method Search(key: int) returns (found: RbNode?, parent: RbNode?, onLeft: bool, ghost c: Ctx)
      requires Valid() && Ordered(Inorder(tree))
      ensures found != null ==> found in nodes && found.key == key
      ensures found == null ==>
        && Plug(c, Nil) == tree && At(c, Nil, root, Snap(nodes)) && Belongs(c, key)
        && (forall n :: n in nodes ==> n.key != key)
        && parent == CtxParent(c) && (onLeft <==> c.InLeft?)
        && Inorder(tree) == Before(c) + After(c) && Ordered(Before(c) + After(c))
    {
      var cur := root;
      ghost var t := tree;
      c, parent, onLeft := Top, null, false;
      while cur != null
        invariant At(c, t, root, Snap(nodes)) && Plug(c, t) == tree && cur == Root(t)
        invariant Belongs(c, key) && parent == CtxParent(c) && (onLeft <==> c.InLeft?)
        decreases t
      {
        NodeCell(c, t, root, Snap(nodes));
        if cur.key == key {
          found := cur;
          return;
        }
        parent := cur;
        cur, onLeft, c, t := Descend(cur, key, c, t);
      }
      found := null;
      NotFound(c, key);
    }

    /** One comparison of the search. */
    method Descend(cur: RbNode, key: int, ghost c: Ctx, ghost t: Tree)
      returns (next: RbNode?, onLeft: bool, ghost c': Ctx, ghost t': Tree)
      requires At(c, t, root, Snap(nodes)) && t.Node? && t.node == cur && cur.key != key
      requires Ordered(Inorder(Plug(c, t))) && Belongs(c, key)
      ensures At(c', t', root, Snap(nodes)) && Plug(c', t') == Plug(c, t) && next == Root(t')
      ensures Belongs(c', key) && CtxParent(c') == cur && (onLeft <==> c'.InLeft?)
      ensures t' == t.left || t' == t.right
    {
      NodeCell(c, t, root, Snap(nodes));
      SearchStep(c, t, key);
      if key < cur.key {
        next, onLeft := cur.left, true;
        c', t' := InLeft(c, t.node, t.color, t.right), t.left;
      } else {
        next, onLeft := cur.right, false;
        c', t' := InRight(c, t.left, t.node, t.color), t.right;
      }
    }

    method LinkLeaf(node: RbNode, parent: RbNode?, onLeft: bool, ghost c: Ctx, ghost S: set<RbNode>)
      requires At(c, Nil, root, Snap(S - {node})) && node in S
      requires parent == CtxParent(c) && (onLeft <==> c.InLeft?)
      requires node !in Before(c) && node !in After(c)
      modifies this`root, S`parent, S`left, S`right
      ensures At(c, Node(Nil, node, node.color, Nil), root, Snap(S))
    {
      ghost var h := Snap(S - {node});
      ParentCell(c, Nil, root, h);
      CtxApart(c, Nil);
      node.parent := parent;
      node.left, node.right := null, null;
      if parent == null {
        root := node;
      } else if onLeft {
        parent.left := node;
      } else {
        parent.right := node;
      }
      LinkAt(c, node, old(root), root, h, Snap(S));
    }

    /** rb_first: an empty tree leaves the traversal as it was. */
    method First(tr: RbTraverse) returns (n: RbNode?)
      requires WellLinked()
      modifies tr
      ensures n == if Inorder(tree) == [] then null else Inorder(tree)[0]
      ensures tr.node == if n == null then old(tr.node) else n
    {
      if root == null {
        return null;
      }
      ghost var k, m;
      n, k, m := LeftmostBelow(root, Top, tree, nodes);
      NodeInorder(k, m);
      RespineInorderTop(k);
      tr.node := n;
    }

    /** rb_next */
    method Next(tr: RbTraverse) returns (n: RbNode?)
      requires WellLinked() && tr.node != null && tr.node in nodes
      modifies tr
      ensures n == Successor(Inorder(tree), old(tr.node)) && tr.node == n
    {
      var p: RbNode := tr.node;
      ghost var c, t := FindPlace(tree, p);
      PlugAt(c, t, root, Snap(nodes));
      NodeInorder(c, t);
      SuccessorAt(BeforeNode(c, t), p, AfterNode(c, t));
      NodeCell(c, t, root, Snap(nodes));
      var q := p.right;
      if q == null {
        n := ClimbOut(p, c, t);
      } else {
        ghost var base, k, m := InRight(c, t.left, p, t.color), Top, Nil;
        n, k, m := LeftmostBelow(q, base, t.right, nodes);
        PlugInorder(base, t.right);
        NodeInorder(k, m);
        FirstOfRight(base, t.right, k, m);
      }
      tr.node := n;
    }

    method ClimbOut(start: RbNode, ghost c0: Ctx, ghost t0: Tree) returns (q: RbNode?)
      requires At(c0, t0, root, Snap(nodes)) && t0.Node? && t0.node == start
      ensures q == if After(c0) == [] then null else After(c0)[0]
    {
      var p := start;
      ghost var c, t := c0, t0;
      ParentCell(c, t, root, Snap(nodes));
      q := p.parent;
      while q != null && p != q.left
        invariant At(c, t, root, Snap(nodes)) && t.Node? && t.node == p && p in nodes
        invariant q == CtxParent(c) && (q != null ==> q in nodes) && After(c) == After(c0)
        decreases Depth(c)
      {
        Zoom(c, t, root, Snap(nodes));
        c, t, p := c.up, Up(c, t), q;
        ParentCell(c, t, root, Snap(nodes));
        q := p.parent;
      }
      CtxApart(c, t);
    }

    /** rb_first and then rb_next until there is no more: every node, in order. */
    method WalkAll(tr: RbTraverse) returns (out: seq<RbNode>)
      requires WellLinked()
      modifies tr
      ensures out == Inorder(tree)
    {
      ghost var s := Inorder(tree);
      out := [];
      var n := First(tr);
      while n != null
        invariant WellLinked() && |out| <= |s| && out == s[..|out|]
        invariant n == (if |out| < |s| then s[|out|] else null) && (n != null ==> tr.node == n)
        decreases |s| - |out|
      {
        assert s == out + [n] + s[|out| + 1..];
        SuccessorAt(out, n, s[|out| + 1..]);
        out := out + [n];
        n := Next(tr);
      }
    }
  }

  /** The cursor of a traversal. */
  class RbTraverse {
    var node: RbNode?
    constructor () ensures node == null { node := null; }
  }

  // ---- Whole runs ----------------------------------------------------------

  datatype Call = Put(node: RbNode) | Take(node: RbNode)

  ghost predicate HasKey(held: set<RbNode>, key: int) {
    exists n :: n in held && n.key == key
  }

  /** The nodes in the tree after a call: one with a key that is there already is not put in. */
  ghost function Done(held: set<RbNode>, call: Call): set<RbNode> {
    match call
    case Put(n) => if HasKey(held, n.key) then held else held + {n}
    case Take(n) => held - {n}
  }

  ghost function HeldAfter(held: set<RbNode>, calls: seq<Call>): set<RbNode> {
    if calls == [] then held else Done(HeldAfter(held, calls[..|calls| - 1]), calls[|calls| - 1])
  }

  /** What the source asks of a caller: only nodes outside are put in, only nodes inside taken out. */
  ghost predicate MayCall(held: set<RbNode>, call: Call) {
    call.Put? <==> call.node !in held
  }

  /** What a call returns: the node that has the key already, if there is one. */
  ghost predicate Returns(held: set<RbNode>, call: Call, found: RbNode?) {
    if call.Put? && HasKey(held, call.node.key) then found in held && found.key == call.node.key else found == null
  }

  ghost predicate ReturnsAt(held: set<RbNode>, calls: seq<Call>, found: seq<RbNode?>, i: int) {
    0 <= i < |calls| && i < |found| && Returns(HeldAfter(held, calls[..i]), calls[i], found[i])
  }

  lemma ErasedSet(s: seq<RbNode>, x: RbNode, s': seq<RbNode>)
    requires Erased(s, x, s') && NoTwice(s)
    ensures (set n | n in s') == (set n | n in s) - {x}
  {
    var i: nat :| i < |s| && s[i] == x && s' == s[..i] + s[i + 1..];
    forall n | n in s && n != x
      ensures n in s'
    {
      var k :| 0 <= k < |s| && s[k] == n;
      assert s'[if k < i then k else k - 1] == n;
    }
    forall k | 0 <= k < |s'|
      ensures s'[k] in s && s'[k] != x
    {
      Apart(s, if k < i then k else k + 1, i);
      assert s'[k] == s[if k < i then k else k + 1];
    }
  }

  lemma ErasedOrdered(s: seq<RbNode>, x: RbNode, s': seq<RbNode>)
    requires Erased(s, x, s') && Ordered(s)
    ensures Ordered(s')
  {
    var i: nat :| i < |s| && s[i] == x && s' == s[..i] + s[i + 1..];
    forall k | 0 <= k < |s'|
      ensures s'[k] == s[if k < i then k else k + 1]
    {
    }
  }

  method Perform(t: RbTree, call: Call, ghost pool: set<RbNode>) returns (found: RbNode?)
    requires t.Valid() && Ordered(Inorder(t.tree)) && t.nodes <= pool && call.node in pool && MayCall(t.nodes, call)
    modifies t, pool
    ensures t.Valid() && Ordered(Inorder(t.tree)) && t.nodes == Done(old(t.nodes), call)
    ensures Returns(old(t.nodes), call, found)
  {
    match call {
      case Put(n) =>
        found := PutIn(t, n);
      case Take(n) =>
        TakeOut(t, n);
        found := null;
    }
  }

  method PutIn(t: RbTree, n: RbNode) returns (found: RbNode?)
    requires t.Valid() && Ordered(Inorder(t.tree)) && n !in t.nodes
    modifies t, t.nodes, n
    ensures t.Valid() && Ordered(Inorder(t.tree)) && t.nodes == Done(old(t.nodes), Put(n))
    ensures Returns(old(t.nodes), Put(n), found)
  {
    found := t.Insert(n);
    if found == null {
      ErasedSet(Inorder(t.tree), n, old(Inorder(t.tree)));
      assert n in Inorder(t.tree);
    }
  }

  method TakeOut(t: RbTree, n: RbNode)
    requires t.Valid() && Ordered(Inorder(t.tree)) && n in t.nodes
    modifies t, t.nodes
    ensures t.Valid() && Ordered(Inorder(t.tree)) && t.nodes == old(t.nodes) - {n}
  {
    t.Erase(n);
    ErasedSet(old(Inorder(t.tree)), n, Inorder(t.tree));
    ErasedOrdered(old(Inorder(t.tree)), n, Inorder(t.tree));
  }

  lemma OneReturn(held: set<RbNode>, calls: seq<Call>, found: seq<RbNode?>, i: nat, r: RbNode?)
    requires i == |found| < |calls| && (forall j :: 0 <= j < i ==> ReturnsAt(held, calls, found, j))
    requires Returns(HeldAfter(held, calls[..i]), calls[i], r)
    ensures forall j :: 0 <= j < i + 1 ==> ReturnsAt(held, calls, found + [r], j)
  {
    forall j | 0 <= j < i + 1
      ensures ReturnsAt(held, calls, found + [r], j)
    {
      assert j < i ==> ReturnsAt(held, calls, found, j);
    }
  }

  /** Any run of insertions and removals, from any tree in order: the tree stays red-black and in
      order, holds exactly the nodes that the run on a set of nodes leaves, and each call returns
      what it says there. */
  method Run(t: RbTree, calls: seq<Call>, ghost pool: set<RbNode>) returns (found: seq<RbNode?>)
    requires t.Valid() && Ordered(Inorder(t.tree)) && t.nodes <= pool
    requires forall i :: 0 <= i < |calls| ==> calls[i].node in pool && MayCall(HeldAfter(t.nodes, calls[..i]), calls[i])
    modifies t, pool
    ensures t.Valid() && Ordered(Inorder(t.tree)) && t.nodes == HeldAfter(old(t.nodes), calls)
    ensures |found| == |calls| && forall i :: 0 <= i < |calls| ==> ReturnsAt(old(t.nodes), calls, found, i)
  {
    found := [];
    var i := 0;
    while i < |calls|
      invariant i <= |calls| && t.Valid() && Ordered(Inorder(t.tree))
      invariant t.nodes == HeldAfter(old(t.nodes), calls[..i]) && t.nodes <= pool
      invariant |found| == i && forall j :: 0 <= j < i ==> ReturnsAt(old(t.nodes), calls, found, j)
    {
      assert calls[..i + 1][..i] == calls[..i];
      var r := Perform(t, calls[i], pool);
      OneReturn(old(t.nodes), calls, found, i, r);
      found, i := found + [r], i + 1;
    }
    assert calls[..i] == calls;
  }
}
