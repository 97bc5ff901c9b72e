/** The ordered map: a red-black tree over mutable nodes with parent links. */
module PooledMap {
  import opened MathBits
  import opened RedBlackTree
  import opened RedBlackRepair
  import opened NodeLinks
  import opened NodeRepair

  class PooledMap<V> {
    const defaultValue: V
    var root: Node?<V>
    var size_: nat

    ghost var nodes: set<Node<V>>
    ghost var links: Links<V>
    ghost var tree: Shape<V>
    ghost var Model: map<int, V>

    /** The recorded links are the fields of the nodes. */
    ghost predicate Linked()
      reads this`links
      reads links.Keys`left, links.Keys`right, links.Keys`parent, links.Keys`color
    {
      forall n :: n in links ==> links[n] == Link(n.left, n.right, n.parent, n.color)
    }

    /** Every node carries the value of its key. */
    ghost predicate Valued()
      reads this`nodes, this`Model, nodes`value
    {
      forall n :: n in nodes ==> n.key in Model && n.value == Model[n.key]
    }

    ghost predicate Valid()
      reads this, nodes
    {
      && nodes == links.Keys && Linked() && Valued() && Ordered(tree, links, root)
      && size_ == |Keys(tree)| && Model.Keys == (set k | k in Keys(tree))
    }

    constructor (defaultValue: V)
      ensures Valid() && nodes == {} && Model == map[]
      ensures this.defaultValue == defaultValue
    {
      this.defaultValue := defaultValue;
      root, size_ := null, 0;
      nodes, links, tree, Model := {}, map[], Leaf, map[];
    }

    // ----- Field assignments -----

    method SetLeft(n: Node<V>, v: Node?<V>)
      requires n in links && Linked()
      modifies this`links, n`left
      ensures Linked() && links == old(links)[n := old(links)[n].(left := v)]
    {
      n.left := v;
      links := links[n := links[n].(left := v)];
    }

    method SetRight(n: Node<V>, v: Node?<V>)
      requires n in links && Linked()
      modifies this`links, n`right
      ensures Linked() && links == old(links)[n := old(links)[n].(right := v)]
    {
      n.right := v;
      links := links[n := links[n].(right := v)];
    }

    method SetParent(n: Node<V>, v: Node?<V>)
      requires n in links && Linked()
      modifies this`links, n`parent
      ensures Linked() && links == old(links)[n := old(links)[n].(parent := v)]
    {
      n.parent := v;
      links := links[n := links[n].(parent := v)];
    }

    method SetColor(n: Node<V>, c: Color)
      requires n in links && Linked()
      modifies this`links, n`color
      ensures Linked() && links == Colored(n, c, old(links))
    {
      n.color := c;
      links := links[n := links[n].(color := c)];
    }

    // ----- Rotations and transplant -----

    method RotateLeft(x: Node<V>)
      requires Linked() && CanTurnLeft(x, links)
      modifies this`root, this`links, links.Keys`left, links.Keys`right, links.Keys`parent
      ensures Linked() && links == TurnedLeft(x, old(links))
      ensures root == if old(links)[x].parent == null then old(links)[x].right else old(root)
    {
      var y := x.right;
      SetRight(x, y.left);
      if y.left != null { SetParent(y.left, x); }
      SetParent(y, x.parent);
      if x.parent == null { root := y; }
      else if x == x.parent.left { SetLeft(x.parent, y); }
      else { SetRight(x.parent, y); }
      SetLeft(y, x);
      SetParent(x, y);
    }

    method RotateRight(x: Node<V>)
      requires Linked() && CanTurnRight(x, links)
      modifies this`root, this`links, links.Keys`left, links.Keys`right, links.Keys`parent
      ensures Linked() && links == TurnedRight(x, old(links))
      ensures root == if old(links)[x].parent == null then old(links)[x].left else old(root)
    {
      var y := x.left;
      SetLeft(x, y.right);
      if y.right != null { SetParent(y.right, x); }
      SetParent(y, x.parent);
      if x.parent == null { root := y; }
      else if x == x.parent.right { SetRight(x.parent, y); }
      else { SetLeft(x.parent, y); }
      SetRight(y, x);
      SetParent(x, y);
    }

    method Transplant(u: Node<V>, v: Node?<V>)
      requires Linked() && CanTransplant(u, v, links) && u != v
      modifies this`root, this`links, links.Keys`left, links.Keys`right, links.Keys`parent
      ensures Linked() && links == Transplanted(u, v, old(links))
      ensures root == if old(links)[u].parent == null then v else old(root)
    {
      if u.parent == null { root := v; }
      else if u == u.parent.left { SetLeft(u.parent, v); }
      else { SetRight(u.parent, v); }
      if v != null { SetParent(v, u.parent); }
    }
  
    // ----- Insertion -----

    method RecolorFamily(z: Node<V>, y: Node<V>) returns (z': Node<V>)
      requires Linked() && y in links && Below2(z, links)
      modifies this`links, links.Keys`color
      ensures Linked() && links == UncleRedLinks(z, y, old(links)) && z' == Grandparent(z, old(links))
    {
      SetColor(z.parent, Black);
      SetColor(y, Black);
      SetColor(z.parent.parent, Red);
      z' := z.parent.parent;
    }

    method UncleRed(z: Node<V>, y: Node<V>, ghost ctx: Place<V>, ghost t: Shape<V>)
      returns (z': Node<V>, ghost ctx': Place<V>, ghost t': Shape<V>)
      requires Linked() && View(ctx, t, links, root)
      requires InsertInv(ctx, t) && t.node == z && HeadRed(ctx) && !ctx.up.Top?
      requires IsRed(Sibling(ctx.up)) && Sibling(ctx.up).node == y
      modifies this`links, links.Keys`color
      ensures Linked() && View(ctx', t', links, root) && links.Keys == old(links.Keys)
      ensures InsertInv(ctx', t') && t'.node == z' && SameKeys(ctx, t, ctx', t') && Depth(ctx') < Depth(ctx)
    {
      hide View, Formed, Surrounds;
      UncleRedView(ctx, t, links, root);
      z' := RecolorFamily(z, y);
      ctx', t' := ctx.up.up, Recolored(ctx, t);
    }

    method OuterRight(z: Node<V>)
      requires Linked() && Below2(z, links) && CanTurnOuter(true, z, links)
      modifies this`root, this`links, links.Keys`left, links.Keys`right, links.Keys`parent, links.Keys`color
      ensures Linked() && links == OuterLinks(true, z, old(links)) && root == OuterRoot(z, old(links), old(root))
    {
      SetColor(z.parent, Black);
      SetColor(z.parent.parent, Red);
      RotateRight(z.parent.parent);
    }

    method InnerLeft(z: Node<V>, ghost ctx: Place<V>, ghost t: Shape<V>)
      returns (z': Node<V>, ghost ctx': Place<V>, ghost t': Shape<V>)
      requires Linked() && View(ctx, t, links, root)
      requires InsertInv(ctx, t) && t.node == z && HeadRed(ctx) && !ctx.up.Top? && ctx.InRight?
      modifies this`root, this`links, links.Keys`left, links.Keys`right, links.Keys`parent
      ensures Linked() && View(ctx', t', links, root) && links.Keys == old(links.Keys)
      ensures InsertInv(ctx', t') && t'.node == z' && SameKeys(ctx, t, ctx', t')
      ensures HeadRed(ctx') && ctx'.up == ctx.up && ctx'.InLeft? && Depth(ctx') == Depth(ctx)
    {
      InsertReads(ctx, t, links, root);
      ViewInner(ctx, t, links, root);
      InnerStep(ctx, t);
      z' := z.parent;
      RotateLeft(z');
      ctx', t' := InnerCtx(ctx, t), InnerTree(ctx, t);
    }

    /** One round of the loop where the parent is a left child. */
    method InsertStepLeft(z: Node<V>, ghost ctx: Place<V>, ghost t: Shape<V>)
      returns (z': Node<V>, ghost ctx': Place<V>, ghost t': Shape<V>)
      requires Linked() && View(ctx, t, links, root)
      requires InsertInv(ctx, t) && t.node == z && HeadRed(ctx) && !ctx.up.Top? && ctx.up.InLeft?
      modifies this`root, this`links, links.Keys`left, links.Keys`right, links.Keys`parent, links.Keys`color
      ensures Linked() && View(ctx', t', links, root) && links.Keys == old(links.Keys)
      ensures InsertInv(ctx', t') && t'.node == z' && SameKeys(ctx, t, ctx', t') && Depth(ctx') < Depth(ctx)
    {
      hide View, Formed, Surrounds;
      InsertReads(ctx, t, links, root);
      var y := z.parent.parent.right;
      if y != null && y.color == Red {
        z', ctx', t' := UncleRed(z, y, ctx, t);
      } else {
        z', ctx', t' := z, ctx, t;
        if z == z.parent.right {
          z', ctx', t' := InnerLeft(z, ctx, t);
        }
        OuterView(ctx', t', links, root);
        OuterRight(z');
        ctx' := OuterCtx(ctx');
      }
    }

    method OuterLeft(z: Node<V>)
      requires Linked() && Below2(z, links) && CanTurnOuter(false, z, links)
      modifies this`root, this`links, links.Keys`left, links.Keys`right, links.Keys`parent, links.Keys`color
      ensures Linked() && links == OuterLinks(false, z, old(links)) && root == OuterRoot(z, old(links), old(root))
    {
      SetColor(z.parent, Black);
      SetColor(z.parent.parent, Red);
      RotateLeft(z.parent.parent);
    }

    method InnerRight(z: Node<V>, ghost ctx: Place<V>, ghost t: Shape<V>)
      returns (z': Node<V>, ghost ctx': Place<V>, ghost t': Shape<V>)
      requires Linked() && View(ctx, t, links, root)
      requires InsertInv(ctx, t) && t.node == z && HeadRed(ctx) && !ctx.up.Top? && ctx.InLeft?
      modifies this`root, this`links, links.Keys`left, links.Keys`right, links.Keys`parent
      ensures Linked() && View(ctx', t', links, root) && links.Keys == old(links.Keys)
      ensures InsertInv(ctx', t') && t'.node == z' && SameKeys(ctx, t, ctx', t')
      ensures HeadRed(ctx') && ctx'.up == ctx.up && ctx'.InRight? && Depth(ctx') == Depth(ctx)
    {
      InsertReads(ctx, t, links, root);
      ViewInner(ctx, t, links, root);
      InnerStep(ctx, t);
      z' := z.parent;
      RotateRight(z');
      ctx', t' := InnerCtx(ctx, t), InnerTree(ctx, t);
    }

    /** One round of the loop where the parent is a right child. */
    method InsertStepRight(z: Node<V>, ghost ctx: Place<V>, ghost t: Shape<V>)
      returns (z': Node<V>, ghost ctx': Place<V>, ghost t': Shape<V>)
      requires Linked() && View(ctx, t, links, root)
      requires InsertInv(ctx, t) && t.node == z && HeadRed(ctx) && !ctx.up.Top? && ctx.up.InRight?
      modifies this`root, this`links, links.Keys`left, links.Keys`right, links.Keys`parent, links.Keys`color
      ensures Linked() && View(ctx', t', links, root) && links.Keys == old(links.Keys)
      ensures InsertInv(ctx', t') && t'.node == z' && SameKeys(ctx, t, ctx', t') && Depth(ctx') < Depth(ctx)
    {
      hide View, Formed, Surrounds;
      InsertReads(ctx, t, links, root);
      var y := z.parent.parent.left;
      if y != null && y.color == Red {
        z', ctx', t' := UncleRed(z, y, ctx, t);
      } else {
        z', ctx', t' := z, ctx, t;
        if z == z.parent.left {
          z', ctx', t' := InnerRight(z, ctx, t);
        }
        OuterView(ctx', t', links, root);
        OuterLeft(z');
        ctx' := OuterCtx(ctx');
      }
    }

    method FixInsert(z0: Node<V>, ghost ctx0: Place<V>, ghost t0: Shape<V>) returns (ghost whole: Shape<V>)
      requires Linked() && View(ctx0, t0, links, root)
      requires InsertInv(ctx0, t0) && t0.node == z0
      modifies this`root, this`links, links.Keys`left, links.Keys`right, links.Keys`parent, links.Keys`color
      ensures Linked() && View(Top, whole, links, root) && links.Keys == old(links.Keys)
      ensures RedBlack(whole) && Keys(whole) == Keys(Plug(ctx0, t0))
    {
      hide View, Formed, Surrounds;
      var z := z0;
      ghost var ctx, t := ctx0, t0;
      AtPair(ctx, t, links, root);
      while z.parent != null && z.parent.color == Red
        invariant Linked() && View(ctx, t, links, root) && links.Keys == old(links.Keys)
        invariant InsertInv(ctx, t) && t.node == z && SameKeys(ctx0, t0, ctx, t)
        invariant z in links && z.parent == Head(ctx)
        invariant z.parent != null ==> z.parent in links && z.parent.color == ctx.color
        decreases Depth(ctx)
      {
        InsertReads(ctx, t, links, root);
        if z.parent == z.parent.parent.left {
          z, ctx, t := InsertStepLeft(z, ctx, t);
        } else {
          z, ctx, t := InsertStepRight(z, ctx, t);
        }
        AtPair(ctx, t, links, root);
      }
      InsertEnd(ctx, t);
      ViewWhole(ctx, t, links, root);
      whole := BlackenRoot(Plug(ctx, t));
    }

    method BlackenRoot(ghost t: Shape<V>) returns (ghost whole: Shape<V>)
      requires Linked() && View(Top, t, links, root) && t.Bin?
      modifies this`links, links.Keys`color
      ensures Linked() && View(Top, whole, links, root) && links.Keys == old(links.Keys)
      ensures whole == Painted(t, Black) && Keys(whole) == Keys(t)
    {
      AtNode(Top, t, links, root);
      ViewColored(Top, t, Black, links, root);
      PaintedKeys(t, Black);
      SetColor(root, Black);
      whole := Painted(t, Black);
    }

    // ----- Erasure -----

    method PushUp(xParent: Node<V>, w: Node<V>, ghost ctx: Place<V>, ghost t: Shape<V>)
      returns (x': Node<V>, xParent': Node?<V>, ghost ctx': Place<V>, ghost t': Shape<V>)
      requires Linked() && View(ctx, t, links, root)
      requires EraseInv(ctx, t) && !IsRed(t) && !ctx.Top? && ctx.node == xParent && Root(Sibling(ctx)) == w
      requires !IsRed(Sibling(ctx)) && !IsRed(Sibling(ctx).left) && !IsRed(Sibling(ctx).right)
      modifies this`links, links.Keys`color
      ensures Linked() && View(ctx', t', links, root) && links.Keys == old(links.Keys)
      ensures EraseInv(ctx', t') && SameKeys(ctx, t, ctx', t') && Root(t') == x' && xParent' == Head(ctx')
      ensures ctx' == ctx.up && (ctx.color == Red ==> IsRed(t'))
    {
      hide View, Formed, Surrounds;
      AtParent(ctx, t, links, root);
      ViewPushedUp(ctx, t, links, root);
      PushUpStep(ctx, t);
      SetColor(w, Red);
      x' := xParent;
      xParent' := x'.parent;
      ctx', t' := ctx.up, PushedUp(ctx, t);
    }

    method SiblingRedLeft(xParent: Node<V>, w: Node<V>)
      requires Linked() && CanSiblingRed(true, xParent, w, links)
      modifies this`root, this`links, links.Keys`left, links.Keys`right, links.Keys`parent, links.Keys`color
      ensures Linked() && links == SiblingRedLinks(true, xParent, w, old(links))
      ensures root == RaisedRoot(xParent, w, old(links), old(root))
    {
      SetColor(w, Black);
      SetColor(xParent, Red);
      RotateLeft(xParent);
    }

    method NephewTurnLeft(w: Node<V>)
      requires Linked() && CanNephew(true, w, links)
      modifies this`root, this`links, links.Keys`left, links.Keys`right, links.Keys`parent, links.Keys`color
      ensures Linked() && links == NephewLinks(true, w, old(links)) && root == old(root)
    {
      if w.left != null { SetColor(w.left, Black); }
      SetColor(w, Red);
      RotateRight(w);
    }

    method SettleColorsLeft(xParent: Node<V>, w: Node<V>)
      requires Linked() && xParent in links && w in links && xParent != w && links[w].right != null && links[w].right in links
      modifies this`links, links.Keys`color
      ensures Linked() && links == SettleColors(true, xParent, w, old(links))
    {
      SetColor(w, xParent.color);
      SetColor(xParent, Black);
      if w.right != null { SetColor(w.right, Black); }
    }

    method SettleLeft(xParent: Node<V>, w: Node<V>)
      requires Linked() && CanSettle(true, xParent, w, links)
      modifies this`root, this`links, links.Keys`left, links.Keys`right, links.Keys`parent, links.Keys`color
      ensures Linked() && links == SettledLinks(true, xParent, w, old(links))
      ensures root == RaisedRoot(xParent, w, old(links), old(root))
    {
      SettleColorsLeft(xParent, w);
      RotateLeft(xParent);
    }

    method TurnNephewLeft(xParent: Node<V>, w: Node<V>, ghost ctx: Place<V>, ghost t: Shape<V>)
      returns (w': Node<V>, ghost ctx': Place<V>)
      requires Linked() && View(ctx, t, links, root)
      requires EraseInv(ctx, t) && ctx.InLeft? && ctx.node == xParent
      requires Root(Sibling(ctx)) == w && !IsRed(Sibling(ctx)) && InnerNephewRed(ctx) && !OuterNephewRed(ctx)
      modifies this`root, this`links, links.Keys`left, links.Keys`right, links.Keys`parent, links.Keys`color
      ensures Linked() && View(ctx', t, links, root) && links.Keys == old(links.Keys)
      ensures EraseInv(ctx', t) && SameKeys(ctx, t, ctx', t) && ctx'.InLeft? && ctx'.node == xParent && ctx'.up == ctx.up
      ensures Root(Sibling(ctx')) == w' && !IsRed(Sibling(ctx')) && OuterNephewRed(ctx')
    {
      ViewNephew(ctx, t, links, root);
      NephewStep(ctx, t);
      NephewTurnLeft(w);
      ctx' := NephewCtx(ctx);
      EraseReads(ctx', t, links, root);
      w' := xParent.right;
    }

    /** One round of the loop where the short subtree hangs on the left, once the sibling is black. */
    method EraseBlackSiblingLeft(xParent: Node<V>, w0: Node<V>, ghost ctx: Place<V>, ghost t: Shape<V>)
      returns (x': Node?<V>, xParent': Node?<V>, ghost ctx': Place<V>, ghost t': Shape<V>)
      requires Linked() && View(ctx, t, links, root)
      requires EraseInv(ctx, t) && !IsRed(t) && ctx.InLeft? && ctx.node == xParent
      requires Root(Sibling(ctx)) == w0 && !IsRed(Sibling(ctx))
      modifies this`root, this`links, links.Keys`left, links.Keys`right, links.Keys`parent, links.Keys`color
      ensures Linked() && View(ctx', t', links, root) && links.Keys == old(links.Keys)
      ensures EraseInv(ctx', t') && SameKeys(ctx, t, ctx', t') && Root(t') == x'
      ensures !ctx'.Top? ==> xParent' == Head(ctx')
      ensures ctx'.Top? || (ctx' == ctx.up && (ctx.color == Red ==> IsRed(t')))
    {
      hide View, Formed, Surrounds;
      var w := w0;
      EraseReads(ctx, t, links, root);
      if (w.left == null || w.left.color == Black) && (w.right == null || w.right.color == Black) {
        x', xParent', ctx', t' := PushUp(xParent, w, ctx, t);
      } else {
        ctx' := ctx;
        if w.right == null || w.right.color == Black {
          w, ctx' := TurnNephewLeft(xParent, w, ctx, t);
        }
        ctx', t', xParent' := SettledLeft(xParent, w, ctx', t);
        x' := root;
      }
    }

    method SettledLeft(xParent: Node<V>, w: Node<V>, ghost ctx: Place<V>, ghost t: Shape<V>)
      returns (ghost ctx': Place<V>, ghost t': Shape<V>, xParent': Node?<V>)
      requires Linked() && View(ctx, t, links, root)
      requires EraseInv(ctx, t) && !IsRed(t) && ctx.InLeft? && ctx.node == xParent
      requires Root(Sibling(ctx)) == w && !IsRed(Sibling(ctx)) && OuterNephewRed(ctx)
      modifies this`root, this`links, links.Keys`left, links.Keys`right, links.Keys`parent, links.Keys`color
      ensures Linked() && View(Top, t', links, root) && links.Keys == old(links.Keys)
      ensures ctx' == Top && EraseInv(Top, t') && SameKeys(ctx, t, Top, t') && Root(t') == root && xParent' == xParent
    {
      ViewSettled(ctx, t, links, root);
      SettleStep(ctx, t);
      SettleLeft(xParent, w);
      ctx', t', xParent' := Top, Plug(ctx.up, Settled(ctx, t)), xParent;
      ViewWhole(ctx.up, Settled(ctx, t), links, root);
    }

    method EraseStepLeft(xParent: Node<V>, ghost ctx: Place<V>, ghost t: Shape<V>)
      returns (x': Node?<V>, xParent': Node?<V>, ghost ctx': Place<V>, ghost t': Shape<V>)
      requires Linked() && View(ctx, t, links, root)
      requires EraseInv(ctx, t) && !IsRed(t) && ctx.InLeft? && ctx.node == xParent
      modifies this`root, this`links, links.Keys`left, links.Keys`right, links.Keys`parent, links.Keys`color
      ensures Linked() && View(ctx', t', links, root) && links.Keys == old(links.Keys)
      ensures EraseInv(ctx', t') && SameKeys(ctx, t, ctx', t') && Root(t') == x'
      ensures !ctx'.Top? ==> xParent' == Head(ctx')
      ensures ctx'.Top? || IsRed(t') || Depth(ctx') < Depth(ctx)
    {
      EraseReads(ctx, t, links, root);
      ctx' := ctx;
      var w := xParent.right;
      if w != null && w.color == Red {
        ViewSiblingRed(ctx, t, links, root);
        SiblingRedStep(ctx, t);
        SiblingRedLeft(xParent, w);
        ctx' := SiblingRedCtx(ctx);
        EraseReads(ctx', t, links, root);
        w := xParent.right;
      }
      x', xParent', ctx', t' := EraseBlackSiblingLeft(xParent, w, ctx', t);
    }

    method SiblingRedRight(xParent: Node<V>, w: Node<V>)
      requires Linked() && CanSiblingRed(false, xParent, w, links)
      modifies this`root, this`links, links.Keys`left, links.Keys`right, links.Keys`parent, links.Keys`color
      ensures Linked() && links == SiblingRedLinks(false, xParent, w, old(links))
      ensures root == RaisedRoot(xParent, w, old(links), old(root))
    {
      SetColor(w, Black);
      SetColor(xParent, Red);
      RotateRight(xParent);
    }

    method NephewTurnRight(w: Node<V>)
      requires Linked() && CanNephew(false, w, links)
      modifies this`root, this`links, links.Keys`left, links.Keys`right, links.Keys`parent, links.Keys`color
      ensures Linked() && links == NephewLinks(false, w, old(links)) && root == old(root)
    {
      if w.right != null { SetColor(w.right, Black); }
      SetColor(w, Red);
      RotateLeft(w);
    }

    method SettleColorsRight(xParent: Node<V>, w: Node<V>)
      requires Linked() && xParent in links && w in links && xParent != w && links[w].left != null && links[w].left in links
      modifies this`links, links.Keys`color
      ensures Linked() && links == SettleColors(false, xParent, w, old(links))
    {
      SetColor(w, xParent.color);
      SetColor(xParent, Black);
      if w.left != null { SetColor(w.left, Black); }
    }

    method SettleRight(xParent: Node<V>, w: Node<V>)
      requires Linked() && CanSettle(false, xParent, w, links)
      modifies this`root, this`links, links.Keys`left, links.Keys`right, links.Keys`parent, links.Keys`color
      ensures Linked() && links == SettledLinks(false, xParent, w, old(links))
      ensures root == RaisedRoot(xParent, w, old(links), old(root))
    {
      SettleColorsRight(xParent, w);
      RotateRight(xParent);
    }

    method TurnNephewRight(xParent: Node<V>, w: Node<V>, ghost ctx: Place<V>, ghost t: Shape<V>)
      returns (w': Node<V>, ghost ctx': Place<V>)
      requires Linked() && View(ctx, t, links, root)
      requires EraseInv(ctx, t) && ctx.InRight? && ctx.node == xParent
      requires Root(Sibling(ctx)) == w && !IsRed(Sibling(ctx)) && InnerNephewRed(ctx) && !OuterNephewRed(ctx)
      modifies this`root, this`links, links.Keys`left, links.Keys`right, links.Keys`parent, links.Keys`color
      ensures Linked() && View(ctx', t, links, root) && links.Keys == old(links.Keys)
      ensures EraseInv(ctx', t) && SameKeys(ctx, t, ctx', t) && ctx'.InRight? && ctx'.node == xParent && ctx'.up == ctx.up
      ensures Root(Sibling(ctx')) == w' && !IsRed(Sibling(ctx')) && OuterNephewRed(ctx')
    {
      ViewNephew(ctx, t, links, root);
      NephewStep(ctx, t);
      NephewTurnRight(w);
      ctx' := NephewCtx(ctx);
      EraseReads(ctx', t, links, root);
      w' := xParent.left;
    }

    /** One round of the loop where the short subtree hangs on the right, once the sibling is black. */
    method EraseBlackSiblingRight(xParent: Node<V>, w0: Node<V>, ghost ctx: Place<V>, ghost t: Shape<V>)
      returns (x': Node?<V>, xParent': Node?<V>, ghost ctx': Place<V>, ghost t': Shape<V>)
      requires Linked() && View(ctx, t, links, root)
      requires EraseInv(ctx, t) && !IsRed(t) && ctx.InRight? && ctx.node == xParent
      requires Root(Sibling(ctx)) == w0 && !IsRed(Sibling(ctx))
      modifies this`root, this`links, links.Keys`left, links.Keys`right, links.Keys`parent, links.Keys`color
      ensures Linked() && View(ctx', t', links, root) && links.Keys == old(links.Keys)
      ensures EraseInv(ctx', t') && SameKeys(ctx, t, ctx', t') && Root(t') == x'
      ensures !ctx'.Top? ==> xParent' == Head(ctx')
      ensures ctx'.Top? || (ctx' == ctx.up && (ctx.color == Red ==> IsRed(t')))
    {
      hide View, Formed, Surrounds;
      var w := w0;
      EraseReads(ctx, t, links, root);
      if (w.left == null || w.left.color == Black) && (w.right == null || w.right.color == Black) {
        x', xParent', ctx', t' := PushUp(xParent, w, ctx, t);
      } else {
        ctx' := ctx;
        if w.left == null || w.left.color == Black {
          w, ctx' := TurnNephewRight(xParent, w, ctx, t);
        }
        ctx', t', xParent' := SettledRight(xParent, w, ctx', t);
        x' := root;
      }
    }

    method SettledRight(xParent: Node<V>, w: Node<V>, ghost ctx: Place<V>, ghost t: Shape<V>)
      returns (ghost ctx': Place<V>, ghost t': Shape<V>, xParent': Node?<V>)
      requires Linked() && View(ctx, t, links, root)
      requires EraseInv(ctx, t) && !IsRed(t) && ctx.InRight? && ctx.node == xParent
      requires Root(Sibling(ctx)) == w && !IsRed(Sibling(ctx)) && OuterNephewRed(ctx)
      modifies this`root, this`links, links.Keys`left, links.Keys`right, links.Keys`parent, links.Keys`color
      ensures Linked() && View(Top, t', links, root) && links.Keys == old(links.Keys)
      ensures ctx' == Top && EraseInv(Top, t') && SameKeys(ctx, t, Top, t') && Root(t') == root && xParent' == xParent
    {
      ViewSettled(ctx, t, links, root);
      SettleStep(ctx, t);
      SettleRight(xParent, w);
      ctx', t', xParent' := Top, Plug(ctx.up, Settled(ctx, t)), xParent;
      ViewWhole(ctx.up, Settled(ctx, t), links, root);
    }

    method EraseStepRight(xParent: Node<V>, ghost ctx: Place<V>, ghost t: Shape<V>)
      returns (x': Node?<V>, xParent': Node?<V>, ghost ctx': Place<V>, ghost t': Shape<V>)
      requires Linked() && View(ctx, t, links, root)
      requires EraseInv(ctx, t) && !IsRed(t) && ctx.InRight? && ctx.node == xParent
      modifies this`root, this`links, links.Keys`left, links.Keys`right, links.Keys`parent, links.Keys`color
      ensures Linked() && View(ctx', t', links, root) && links.Keys == old(links.Keys)
      ensures EraseInv(ctx', t') && SameKeys(ctx, t, ctx', t') && Root(t') == x'
      ensures !ctx'.Top? ==> xParent' == Head(ctx')
      ensures ctx'.Top? || IsRed(t') || Depth(ctx') < Depth(ctx)
    {
      EraseReads(ctx, t, links, root);
      ctx' := ctx;
      var w := xParent.left;
      if w != null && w.color == Red {
        ViewSiblingRed(ctx, t, links, root);
        SiblingRedStep(ctx, t);
        SiblingRedRight(xParent, w);
        ctx' := SiblingRedCtx(ctx);
        EraseReads(ctx', t, links, root);
        w := xParent.left;
      }
      x', xParent', ctx', t' := EraseBlackSiblingRight(xParent, w, ctx', t);
    }

    /** One round of the loop, on whichever side the short subtree hangs. */
    method EraseStep(x: Node?<V>, xParent: Node<V>, ghost ctx: Place<V>, ghost t: Shape<V>)
      returns (x': Node?<V>, xParent': Node?<V>, ghost ctx': Place<V>, ghost t': Shape<V>)
      requires Linked() && View(ctx, t, links, root)
      requires EraseInv(ctx, t) && !IsRed(t) && !ctx.Top? && ctx.node == xParent && x == Root(t)
      modifies this`root, this`links, links.Keys`left, links.Keys`right, links.Keys`parent, links.Keys`color
      ensures Linked() && View(ctx', t', links, root) && links.Keys == old(links.Keys)
      ensures EraseInv(ctx', t') && SameKeys(ctx, t, ctx', t') && Root(t') == x'
      ensures !ctx'.Top? ==> xParent' == Head(ctx')
      ensures ctx'.Top? || IsRed(t') || Depth(ctx') < Depth(ctx)
    {
      EraseReads(ctx, t, links, root);
      if x == xParent.left {
        x', xParent', ctx', t' := EraseStepLeft(xParent, ctx, t);
      } else {
        x', xParent', ctx', t' := EraseStepRight(xParent, ctx, t);
      }
    }

    method FixErase(x0: Node?<V>, xParent0: Node?<V>, ghost ctx0: Place<V>, ghost t0: Shape<V>)
      returns (ghost whole: Shape<V>)
      requires Linked() && View(ctx0, t0, links, root)
      requires EraseInv(ctx0, t0) && Root(t0) == x0 && xParent0 == Head(ctx0)
      modifies this`root, this`links, links.Keys`left, links.Keys`right, links.Keys`parent, links.Keys`color
      ensures Linked() && View(Top, whole, links, root) && links.Keys == old(links.Keys)
      ensures RedBlack(whole) && Keys(whole) == Keys(Plug(ctx0, t0))
    {
      hide View, Formed, Surrounds;
      var x, xParent := x0, xParent0;
      ghost var ctx, t := ctx0, t0;
      AtPair(ctx, t, links, root);
      while x != root && (x == null || x.color == Black)
        invariant Linked() && View(ctx, t, links, root) && links.Keys == old(links.Keys)
        invariant EraseInv(ctx, t) && Root(t) == x && SameKeys(ctx0, t0, ctx, t)
        invariant !ctx.Top? ==> xParent == Head(ctx)
        invariant x == root <==> ctx.Top?
        invariant x != null ==> x in links && x.color == t.color
        decreases if ctx.Top? || IsRed(t) then 0 else Depth(ctx)
      {
        x, xParent, ctx, t := EraseStep(x, xParent, ctx, t);
        AtPair(ctx, t, links, root);
      }
      EraseEnd(ctx, t);
      BlackenShort(x, ctx, t);
      whole := Plug(ctx, Painted(t, Black));
    }

    method BlackenShort(x: Node?<V>, ghost ctx: Place<V>, ghost t: Shape<V>)
      requires Linked() && View(ctx, t, links, root) && Root(t) == x
      modifies this`links, links.Keys`color
      ensures Linked() && View(Top, Plug(ctx, Painted(t, Black)), links, root) && links.Keys == old(links.Keys)
    {
      if x != null {
        ViewColored(ctx, t, Black, links, root);
        SetColor(x, Black);
      }
      ViewWhole(ctx, Painted(t, Black), links, root);
    }
  
    // ----- Searching -----

    /** The search loop that every operation of the map runs. */
    method Locate(key: int)
      returns (cur: Node?<V>, parent: Node?<V>, ghost ctx: Place<V>, ghost t: Shape<V>, ghost steps: nat)
      requires Valid()
      ensures Seeks(ctx, t, tree, key, links, root)
      ensures cur == Root(t) && parent == Head(ctx)
      ensures cur != null ==> cur in links && cur.key == key && t.key == key
      ensures cur != null <==> key in Model
      ensures Pow2((steps + 1) / 2) <= size_ + 1
    {
      cur, parent := root, null;
      ctx, t, steps := Top, tree, 0;
      SeekStart(tree, key, links, root);
      while cur != null
        invariant Seeks(ctx, t, tree, key, links, root)
        invariant cur == Root(t) && parent == Head(ctx) && steps == Depth(ctx)
        decreases t
      {
        SeekReads(ctx, t, tree, key, links, root);
        steps := steps + 1;
        if key == cur.key {
          return;
        }
        SeekStep(ctx, t, tree, key, links, root);
        parent := cur;
        cur := if key < cur.key then cur.left else cur.right;
        ctx, t := Lower(ctx, t, key).0, Lower(ctx, t, key).1;
      }
      SeekEnd(ctx, tree, key, links, root);
    }

    method Find(key: int) returns (v: V, ghost steps: nat)
      requires Valid()
      ensures v == if key in Model then Model[key] else defaultValue
      ensures Pow2((steps + 1) / 2) <= size_ + 1
    {
      var cur, parent;
      ghost var ctx, t;
      cur, parent, ctx, t, steps := Locate(key);
      v := if cur != null then cur.value else defaultValue;
    }

    method Contains(key: int) returns (b: bool, ghost steps: nat)
      requires Valid()
      ensures b <==> key in Model
      ensures Pow2((steps + 1) / 2) <= size_ + 1
    {
      var cur, parent;
      ghost var ctx, t;
      cur, parent, ctx, t, steps := Locate(key);
      b := cur != null;
    }

    method Size() returns (n: nat)
      requires Valid()
      ensures n == |Model|
    {
      SortedCard(Keys(tree));
      n := size_;
    }

    // ----- Inserting -----

    /** `operator[]`: the node whose value the returned reference denotes. */
    method Index(key: int) returns (node: Node<V>)
      requires Valid()
      modifies this, nodes
      ensures Valid() && fresh(nodes - old(nodes)) && node in nodes && node.key == key
      ensures Model == if key in old(Model) then old(Model) else old(Model)[key := defaultValue]
      ensures key in old(Model) ==> links == old(links) && tree == old(tree)
    {
      hide Ordered, Linked, Valued;
      var cur, parent;
      ghost var ctx, t, steps;
      cur, parent, ctx, t, steps := Locate(key);
      if cur != null {
        node := cur;
      } else {
        node := InsertNew(key, parent, ctx);
      }
    }

    method InsertNew(key: int, parent: Node?<V>, ghost ctx: Place<V>) returns (node: Node<V>)
      requires Valid() && Seeks(ctx, Leaf, tree, key, links, root) && parent == Head(ctx) && key !in Model
      modifies this, nodes
      ensures Valid() && nodes == old(nodes) + {node} && fresh(node) && node.key == key
      ensures Model == old(Model)[key := defaultValue]
    {
      hide Seeks, Ordered, Linked;
      node := new Node(key, defaultValue, parent);
      ghost var whole := LinkNode(node, parent, ctx);
      size_ := size_ + 1;
      Record(node, whole);
    }

    /** The recorded contents follow a node that was linked. */
    ghost method Record(node: Node<V>, whole: Shape<V>)
      requires Linked() && Valued() && Ordered(whole, links, root) && links.Keys == nodes + {node}
      requires node !in nodes && node.key !in Model && node.value == defaultValue
      requires Model.Keys == (set k | k in Keys(tree)) && |Keys(whole)| == size_
      requires forall k :: k in Keys(whole) <==> k in Keys(tree) || k == node.key
      modifies this`tree, this`nodes, this`Model
      ensures Valid() && nodes == old(nodes) + {node} && tree == whole
      ensures Model == old(Model)[node.key := defaultValue]
    {
      KeysGrown(Keys(tree), Keys(whole), node.key, Model, defaultValue);
      tree, nodes := whole, nodes + {node};
      Model := Model[node.key := defaultValue];
    }

    method LinkNode(node: Node<V>, parent: Node?<V>, ghost ctx: Place<V>) returns (ghost whole: Shape<V>)
      requires Linked() && Seeks(ctx, Leaf, tree, node.key, links, root) && parent == Head(ctx) && node !in links
      requires node.left == null && node.right == null && node.parent == parent && node.color == Red
      modifies this`root, this`links
      modifies (links.Keys + {node})`left, (links.Keys + {node})`right, (links.Keys + {node})`parent, (links.Keys + {node})`color
      ensures Linked() && Ordered(whole, links, root) && links.Keys == old(links.Keys) + {node}
      ensures |Keys(whole)| == |Keys(tree)| + 1
      ensures forall k :: k in Keys(whole) <==> k in Keys(tree) || k == node.key
    {
      hide View, Formed, Surrounds;
      SeekGrown(ctx, tree, node, links, root);
      AttachNode(node, parent, ctx);
      whole := FixInsert(node, ctx, Bin(node, Red, node.key, Leaf, Leaf));
    }

    method AttachNode(node: Node<V>, parent: Node?<V>, ghost ctx: Place<V>)
      requires Linked() && Seeks(ctx, Leaf, tree, node.key, links, root) && parent == Head(ctx) && node !in links
      requires node.left == null && node.right == null && node.parent == parent && node.color == Red
      modifies this`root, this`links, links.Keys`left, links.Keys`right
      ensures Within(parent, old(links))
      ensures Linked() && links == Grown(node, parent, ctx.InLeft?, old(links))
      ensures root == if ctx.Top? then node else old(root)
    {
      AtPair(ctx, Leaf, links, root);
      if !ctx.Top? { SideOfParent(ctx, node.key, links, root); }
      links := links[node := Link(null, null, parent, Red)];
      if root == null { root := node; }
      else if node.key < parent.key { SetLeft(parent, node); }
      else { SetRight(parent, node); }
    }

    /** `map[key] = v`. */
    method Put(key: int, v: V)
      requires Valid()
      modifies this, nodes
      ensures Valid() && fresh(nodes - old(nodes))
      ensures Model == old(Model)[key := v]
    {
      hide *;
      var node := Index(key);
      Assign(node, v);
    }

    lemma ReadThrough(node: Node<V>)
      requires Valid() && node in nodes
      ensures node.key in Model && node.value == Model[node.key]
    {
    }

    /** An assignment through the reference that `operator[]` returned. */
    method Assign(node: Node<V>, v: V)
      requires Valid() && node in nodes
      modifies this`Model, node`value
      ensures Valid() && Model == old(Model)[node.key := v]
    {
      UniqueNodes(tree, links, root, node);
      node.value := v;
      Model := Model[node.key := v];
    }
  
    // ----- Erasing -----

    /** Returns 1 and removes the key if it was present; returns 0 otherwise. */
    method Erase(key: int) returns (count: nat)
      requires Valid()
      modifies this, nodes
      ensures Valid() && nodes <= old(nodes)
      ensures count == if key in old(Model) then 1 else 0
      ensures Model == old(Model) - {key}
    {
      var z, parent;
      ghost var ctx, t, steps;
      z, parent, ctx, t, steps := Locate(key);
      if z == null { return 0; }
      EraseNode(z, ctx, t);
      count := 1;
    }

    method EraseNode(z: Node<V>, ghost ctx: Place<V>, ghost t: Shape<V>)
      requires Valid() && Seeks(ctx, t, tree, z.key, links, root) && Root(t) == z && t.key == z.key
      modifies this, nodes
      ensures Valid() && nodes == old(nodes) - {z} && Model == old(Model) - {z.key}
    {
      hide Seeks, Ordered, Linked;
      ErasedKeys(ctx, t, tree, z.key, links, root);
      ghost var whole := Unlink(z, ctx, t);
      Forget(z, whole);
    }

    /** The recorded contents follow a node that was unlinked. */
    ghost method Forget(z: Node<V>, whole: Shape<V>)
      requires Linked() && Valued() && Ordered(whole, links, root) && links.Keys == nodes - {z}
      requires z in nodes && Model.Keys == (set k | k in Keys(tree)) && |Keys(whole)| == size_
      requires forall k :: k in Keys(whole) <==> k in Keys(tree) && k != z.key
      modifies this`tree, this`nodes, this`Model
      ensures Valid() && nodes == old(nodes) - {z} && Model == old(Model) - {z.key}
    {
      forall n | n in links
        ensures n.key != z.key
      {
        KeyOfNode(whole, null, links, n);
      }
      KeysShrunk(Keys(tree), Keys(whole), z.key, Model);
      tree, nodes := whole, nodes - {z};
      Model := Model - {z.key};
    }

    method Unlink(z: Node<V>, ghost ctx: Place<V>, ghost t: Shape<V>) returns (ghost whole: Shape<V>)
      requires Linked() && View(ctx, t, links, root) && Root(t) == z
      requires RedBlack(Plug(ctx, t)) && size_ > 0
      modifies this`root, this`links, this`size_
      modifies links.Keys`left, links.Keys`right, links.Keys`parent, links.Keys`color
      ensures Linked() && View(Top, whole, links, root) && links.Keys == old(links.Keys) - {z}
      ensures RedBlack(whole) && Keys(whole) == Without(ctx, t) && size_ == old(size_) - 1
    {
      hide View, Formed, Surrounds;
      var x: Node?<V>, xParent: Node?<V>, removed: Color;
      ghost var ctx', s;
      AtNode(ctx, t, links, root);
      if z.left == null {
        x, xParent, removed, ctx', s := SpliceRight(z, ctx, t);
      } else if z.right == null {
        x, xParent, removed, ctx', s := SpliceLeft(z, ctx, t);
      } else {
        x, xParent, removed, ctx', s := ReplaceBySuccessor(z, ctx, t);
      }
      size_ := size_ - 1;
      whole := Plug(ctx', s);
      if removed == Black {
        whole := FixErase(x, xParent, ctx', s);
      } else {
        ViewWhole(ctx', s, links, root);
      }
    }

    /** `z` is no longer part of the tree. */
    ghost method Drop(z: Node<V>)
      requires Linked()
      modifies this`links
      ensures Linked() && links == old(links) - {z}
    {
      links := links - {z};
    }

    /** No left child: the right one, or nothing, takes the place of `z`. */
    method SpliceRight(z: Node<V>, ghost ctx: Place<V>, ghost t: Shape<V>)
      returns (x: Node?<V>, xParent: Node?<V>, removed: Color, ghost ctx': Place<V>, ghost s: Shape<V>)
      requires Linked() && View(ctx, t, links, root) && Root(t) == z && t.left.Leaf? && RedBlack(Plug(ctx, t))
      modifies this`root, this`links, links.Keys`left, links.Keys`right, links.Keys`parent
      ensures Linked() && View(ctx', s, links, root) && links.Keys == old(links.Keys) - {z}
      ensures Root(s) == x && xParent == Head(ctx') && Keys(Plug(ctx', s)) == Without(ctx, t)
      ensures if removed == Black then EraseInv(ctx', s) else RedBlack(Plug(ctx', s))
    {
      hide View, Formed, Surrounds;
      AtNode(ctx, t, links, root);
      ViewTransplanted(ctx, t, t.right, links, root);
      SpliceKeys(ctx, t, t.right);
      SpliceColors(ctx, t, t.right);
      removed := z.color;
      x := z.right;
      xParent := z.parent;
      Transplant(z, z.right);
      Drop(z);
      ctx', s := ctx, t.right;
    }

    /** No right child: the left one takes the place of `z`. */
    method SpliceLeft(z: Node<V>, ghost ctx: Place<V>, ghost t: Shape<V>)
      returns (x: Node?<V>, xParent: Node?<V>, removed: Color, ghost ctx': Place<V>, ghost s: Shape<V>)
      requires Linked() && View(ctx, t, links, root) && Root(t) == z && t.right.Leaf? && RedBlack(Plug(ctx, t))
      modifies this`root, this`links, links.Keys`left, links.Keys`right, links.Keys`parent
      ensures Linked() && View(ctx', s, links, root) && links.Keys == old(links.Keys) - {z}
      ensures Root(s) == x && xParent == Head(ctx') && Keys(Plug(ctx', s)) == Without(ctx, t)
      ensures if removed == Black then EraseInv(ctx', s) else RedBlack(Plug(ctx', s))
    {
      hide View, Formed, Surrounds;
      AtNode(ctx, t, links, root);
      ViewTransplanted(ctx, t, t.left, links, root);
      SpliceKeys(ctx, t, t.left);
      SpliceColors(ctx, t, t.left);
      removed := z.color;
      x := z.left;
      xParent := z.parent;
      Transplant(z, z.left);
      Drop(z);
      ctx', s := ctx, t.left;
    }

    /** The least node of a subtree. */
    method Minimum(n: Node<V>, ghost ctx: Place<V>, ghost t: Shape<V>) returns (y: Node<V>)
      requires Linked() && View(ctx, t, links, root) && Root(t) == n
      ensures View(LeastCtx(ctx, t), Least(t), links, root) && y == Least(t).node && y in links
    {
      y := n;
      ghost var c, s := ctx, t;
      AtNode(c, s, links, root);
      while y.left != null
        invariant View(c, s, links, root) && Root(s) == y && y in links && y.left == Root(s.left)
        invariant LeastCtx(c, s) == LeastCtx(ctx, t) && Least(s) == Least(t)
        decreases s
      {
        y := y.left;
        ViewUp(InLeft(s.node, s.color, s.key, s.right, c), s.left, links, root);
        c, s := InLeft(s.node, s.color, s.key, s.right, c), s.left;
        AtNode(c, s, links, root);
      }
    }

    /** `transplant(z, y)`, then `y` takes over the left subtree and the colour of `z`. */
    method TakePlace(z: Node<V>, y: Node<V>)
      requires Linked() && CanSucceed(z, y, links)
      modifies this`root, this`links, links.Keys`left, links.Keys`right, links.Keys`parent, links.Keys`color
      ensures Linked() && links == Succeeded(z, y, old(links))
      ensures root == if old(links)[z].parent == null then y else old(root)
    {
      Transplant(z, y);
      SetLeft(y, z.left);
      SetParent(y.left, y);
      SetColor(y, z.color);
    }

    method SuccessorIsChild(z: Node<V>, y: Node<V>, x: Node?<V>, ghost ctx: Place<V>, ghost t: Shape<V>)
      returns (xParent: Node<V>)
      requires Linked() && View(ctx, t, links, root) && Root(t) == z && t.left.Bin? && t.right.Bin?
      requires t.right.left.Leaf? && t.right.node == y && Root(t.right.right) == x
      modifies this`root, this`links, links.Keys`left, links.Keys`right, links.Keys`parent, links.Keys`color
      ensures Linked() && links.Keys == old(links.Keys) - {z} && xParent == y
      ensures View(InRight(y, t.color, y.key, t.left, ctx), t.right.right, links, root)
    {
      hide View, Formed, Surrounds, Linked, Ready, Succeeded, CanSucceed;
      ReadyShallow(ctx, t, links, root);
      ViewSucceeded(ctx, z, t.color, t.left, y, t.right.right, links, root);
      if x != null {
        AlreadyParent(x, y, links);
        SetParent(x, y);
      }
      xParent := y;
      TakePlace(z, y);
      Drop(z);
      ViewUp(InRight(y, t.color, y.key, t.left, ctx), t.right.right, links, root);
    }

    /** The successor leaves its own place and takes over the right subtree. */
    method Lift(z: Node<V>, y: Node<V>) returns (xParent: Node?<V>)
      requires Linked() && CanLift(z, y, links)
      modifies this`root, this`links, links.Keys`left, links.Keys`right, links.Keys`parent
      ensures Linked() && links == Lifted(z, y, old(links)) && root == old(root)
      ensures xParent == old(links)[y].parent
    {
      Transplant(y, y.right);
      SetRight(y, z.right);
      SetParent(y.right, y);
      xParent := y.parent;
    }

    method SuccessorIsDeeper(z: Node<V>, y: Node<V>, ghost ctx: Place<V>, ghost t: Shape<V>)
      returns (xParent: Node?<V>)
      requires Linked() && View(ctx, t, links, root) && Root(t) == z && t.left.Bin? && t.right.Bin?
      requires t.right.left.Bin? && Least(t.right).node == y
      modifies this`root, this`links, links.Keys`left, links.Keys`right, links.Keys`parent, links.Keys`color
      ensures Linked() && links.Keys == old(links.Keys) - {z}
      ensures xParent == Head(LeastCtx(InRight(y, t.color, y.key, t.left, ctx), t.right))
      ensures View(LeastCtx(InRight(y, t.color, y.key, t.left, ctx), t.right), Least(t.right).right, links, root)
    {
      hide View, Formed, Surrounds, Linked, Ready, Succeeded, Lifted, CanLift, CanSucceed, WithoutLeast;
      DeepLift(ctx, t, links, root);
      xParent := Lift(z, y);
      ViewSucceeded(ctx, z, t.color, t.left, y, WithoutLeast(t.right), links, root);
      TakePlace(z, y);
      Drop(z);
      DeepEnd(ctx, t, y, links, root);
    }

    /** Both children present: the successor moves into the place of `z`. */
    method ReplaceBySuccessor(z: Node<V>, ghost ctx: Place<V>, ghost t: Shape<V>)
      returns (x: Node?<V>, xParent: Node?<V>, removed: Color, ghost ctx': Place<V>, ghost s: Shape<V>)
      requires Linked() && View(ctx, t, links, root) && Root(t) == z && t.left.Bin? && t.right.Bin? && RedBlack(Plug(ctx, t))
      modifies this`root, this`links, links.Keys`left, links.Keys`right, links.Keys`parent, links.Keys`color
      ensures Linked() && View(ctx', s, links, root) && links.Keys == old(links.Keys) - {z}
      ensures Root(s) == x && xParent == Head(ctx') && Keys(Plug(ctx', s)) == Without(ctx, t)
      ensures if removed == Black then EraseInv(ctx', s) else RedBlack(Plug(ctx', s))
    {
      hide View, Formed, Surrounds;
      AtNode(ctx, t, links, root);
      ghost var c := InRight(t.node, t.color, t.key, t.left, ctx);
      ViewUp(c, t.right, links, root);
      var y := Minimum(z.right, c, t.right);
      AtNode(LeastCtx(c, t.right), Least(t.right), links, root);
      SuccessorDepth(ctx, t, links, root);
      removed := y.color;
      x := y.right;
      if y.parent == z {
        xParent := SuccessorIsChild(z, y, x, ctx, t);
      } else {
        xParent := SuccessorIsDeeper(z, y, ctx, t);
      }
      SuccessorColors(ctx, t, y, y.key);
      SuccessorKeys(ctx, t, y);
      ctx', s := LeastCtx(InRight(y, t.color, y.key, t.left, ctx), t.right), Least(t.right).right;
    }
  
    // ----- Traversal -----

    /** The pairs handed to the callback, in order. */
    method InorderTraverse(n: Node?<V>, ghost p: Node?<V>, ghost t: Shape<V>) returns (visited: seq<(int, V)>)
      requires Linked() && Valued() && nodes == links.Keys && Formed(t, p, links) && Root(t) == n
      ensures |visited| == |Keys(t)|
      ensures forall i :: 0 <= i < |visited| ==> visited[i].0 == Keys(t)[i]
      ensures forall i :: 0 <= i < |visited| ==> visited[i].0 in Model && visited[i].1 == Model[visited[i].0]
      decreases t
    {
      if n == null { return []; }
      var before := InorderTraverse(n.left, n, t.left);
      var after := InorderTraverse(n.right, n, t.right);
      visited := before + [(n.key, n.value)] + after;
    }

    method ForEach() returns (visited: seq<(int, V)>)
      requires Valid()
      ensures forall i, j :: 0 <= i < j < |visited| ==> visited[i].0 < visited[j].0
      ensures forall i :: 0 <= i < |visited| ==> visited[i].0 in Model && visited[i].1 == Model[visited[i].0]
      ensures forall k :: k in Model ==> exists i :: 0 <= i < |visited| && visited[i].0 == k
    {
      visited := InorderTraverse(root, null, tree);
      forall k | k in Model
        ensures exists i :: 0 <= i < |visited| && visited[i].0 == k
      {
        var i :| 0 <= i < |Keys(tree)| && Keys(tree)[i] == k;
        assert visited[i].0 == k;
      }
    }
  }

  // ----- Whole runs -----

  datatype Request<V> = Assign(key: int, value: V) | Access(key: int) | Lookup(key: int) | Ask(key: int) | Remove(key: int)
  datatype Reply<V> = Done | Value(v: V) | Is(b: bool) | Count(n: nat)

  /** What a plain finite map does with a request. */
  ghost function Serve<V>(m: map<int, V>, r: Request<V>, d: V): (map<int, V>, Reply<V>) {
    match r
    case Assign(k, v) => (m[k := v], Done)
    case Access(k) => if k in m then (m, Value(m[k])) else (m[k := d], Value(d))
    case Lookup(k) => (m, Value(if k in m then m[k] else d))
    case Ask(k) => (m, Is(k in m))
    case Remove(k) => (m - {k}, Count(if k in m then 1 else 0))
  }

  ghost function ServeAll<V>(m: map<int, V>, rs: seq<Request<V>>, d: V): (map<int, V>, seq<Reply<V>>) {
    if rs == [] then (m, [])
    else
      var (m', replies) := ServeAll(m, rs[..|rs| - 1], d);
      var (m'', reply) := Serve(m', rs[|rs| - 1], d);
      (m'', replies + [reply])
  }

  /** Whatever is asked of a new map, it answers as a plain finite map would; at the end its size and
      traversal are those of that finite map. */
  method Replay<V>(rs: seq<Request<V>>, d: V) returns (replies: seq<Reply<V>>, size: nat, visited: seq<(int, V)>)
    ensures replies == ServeAll(map[], rs, d).1 && size == |ServeAll(map[], rs, d).0|
    ensures forall i, j :: 0 <= i < j < |visited| ==> visited[i].0 < visited[j].0
    ensures forall k, v :: (k, v) in visited <==> k in ServeAll(map[], rs, d).0 && ServeAll(map[], rs, d).0[k] == v
  {
    var m := new PooledMap(d);
    replies := [];
    for n := 0 to |rs|
      invariant m.Valid() && fresh(m) && fresh(m.nodes) && m.defaultValue == d
      invariant (m.Model, replies) == ServeAll(map[], rs[..n], d)
    {
      assert rs[..n + 1][..n] == rs[..n];
      var reply := Answer(m, rs[n]);
      replies := replies + [reply];
    }
    assert rs[..|rs|] == rs;
    size := m.Size();
    visited := m.ForEach();
  }

  method Answer<V>(m: PooledMap<V>, r: Request<V>) returns (reply: Reply<V>)
    requires m.Valid()
    modifies m, m.nodes
    ensures m.Valid() && fresh(m.nodes - old(m.nodes))
    ensures (m.Model, reply) == Serve(old(m.Model), r, m.defaultValue)
  {
    ghost var steps;
    match r {
      case Assign(k, v) => m.Put(k, v); reply := Done;
      case Access(k) =>
        var node := m.Index(k);
        m.ReadThrough(node);
        reply := Value(node.value);
      case Lookup(k) =>
        var v;
        v, steps := m.Find(k);
        reply := Value(v);
      case Ask(k) =>
        var b;
        b, steps := m.Contains(k);
        reply := Is(b);
      case Remove(k) =>
        var n := m.Erase(k);
        reply := Count(n);
    }
  }

  /** The in-order keys around the erased node. */
  ghost function Without<N>(ctx: Ctx<N>, t: Tree<N>): seq<int>
    requires t.Bin?
  {
    (Before(ctx) + Keys(t.left)) + (Keys(t.right) + After(ctx))
  }

  /** Linked as a tree that is coloured and ordered as the map needs it. */
  ghost predicate Ordered<V>(t: Shape<V>, m: Links<V>, root: Node?<V>) {
    View(Top, t, m, root) && RedBlack(t) && Sorted(Keys(t))
  }

  lemma AtPair<V>(ctx: Place<V>, t: Shape<V>, m: Links<V>, root: Node?<V>)
    requires View(ctx, t, m, root)
    ensures Root(t) == root <==> ctx.Top?
    ensures t.Bin? ==> t.node in m && m[t.node].color == t.color && m[t.node].parent == Head(ctx)
    ensures !ctx.Top? ==> ctx.node in m && m[ctx.node].color == ctx.color
  {
    AtNode(ctx, t, m, root);
    if !ctx.Top? { AtParent(ctx, t, m, root); }
  }

  // ----- Searching -----

  ghost function Lower<V>(ctx: Place<V>, t: Shape<V>, key: int): (Place<V>, Shape<V>)
    requires t.Bin?
  {
    if key < t.key then (InLeft(t.node, t.color, t.key, t.right, ctx), t.left)
    else (InRight(t.node, t.color, t.key, t.left, ctx), t.right)
  }

  /** A search for `key` in `whole` has reached the subtree `t` below `ctx`. */
  ghost predicate Seeks<V>(ctx: Place<V>, t: Shape<V>, whole: Shape<V>, key: int, m: Links<V>, root: Node?<V>) {
    View(ctx, t, m, root) && Plug(ctx, t) == whole && RedBlack(whole) && Sorted(Keys(whole)) && Encloses(ctx, key)
  }

  lemma SeekStart<V>(whole: Shape<V>, key: int, m: Links<V>, root: Node?<V>)
    requires Ordered(whole, m, root)
    ensures Seeks(Top, whole, whole, key, m, root)
  {
  }

  lemma SeekReads<V>(ctx: Place<V>, t: Shape<V>, whole: Shape<V>, key: int, m: Links<V>, root: Node?<V>)
    requires Seeks(ctx, t, whole, key, m, root) && t.Bin?
    ensures t.node in m && t.node.key == t.key && m[t.node].left == Root(t.left) && m[t.node].right == Root(t.right)
    ensures t.key in Keys(whole)
    ensures Pow2((Depth(ctx) + 2) / 2) <= |Keys(whole)| + 1
  {
    AtNode(ctx, t, m, root);
    SearchFound(ctx, t);
    SearchLength(InLeft(t.node, t.color, t.key, t.right, ctx), t.left);
  }

  lemma SeekStep<V>(ctx: Place<V>, t: Shape<V>, whole: Shape<V>, key: int, m: Links<V>, root: Node?<V>)
    requires Seeks(ctx, t, whole, key, m, root) && t.Bin? && key != t.key
    ensures Seeks(Lower(ctx, t, key).0, Lower(ctx, t, key).1, whole, key, m, root)
    ensures Lower(ctx, t, key).1 == (if key < t.key then t.left else t.right)
    ensures Head(Lower(ctx, t, key).0) == t.node && Depth(Lower(ctx, t, key).0) == Depth(ctx) + 1
  {
    SearchStep(ctx, t, key);
    ViewUp(Lower(ctx, t, key).0, Lower(ctx, t, key).1, m, root);
  }

  lemma SeekEnd<V>(ctx: Place<V>, whole: Shape<V>, key: int, m: Links<V>, root: Node?<V>)
    requires Seeks(ctx, Leaf, whole, key, m, root)
    ensures key !in Keys(whole) && Pow2((Depth(ctx) + 1) / 2) <= |Keys(whole)| + 1
  {
    SearchEnd(ctx, key);
    SearchLength(ctx, Leaf);
  }

  /** Linking a new red node where the search ended is what the insertion repair starts from. */
  lemma SeekGrown<V>(ctx: Place<V>, whole: Shape<V>, node: Node<V>, m: Links<V>, root: Node?<V>)
    requires Seeks(ctx, Leaf, whole, node.key, m, root) && node !in m
    ensures var t := Bin(node, Red, node.key, Leaf, Leaf);
      && Within(Head(ctx), m) && InsertInv(ctx, t)
      && View(ctx, t, Grown(node, Head(ctx), ctx.InLeft?, m), if ctx.Top? then node else root)
      && Sorted(Keys(Plug(ctx, t))) && |Keys(Plug(ctx, t))| == |Keys(whole)| + 1
      && (forall k :: k in Keys(Plug(ctx, t)) <==> k in Keys(whole) || k == node.key)
  {
    ViewGrown(ctx, node, m, root);
    InsertStart(ctx, node, node.key);
    InsertStartKeys(ctx, node, node.key);
  }

  /** The comparison with the parent's key picks the side on which the search left it. */
  lemma SideOfParent<V>(ctx: Place<V>, key: int, m: Links<V>, root: Node?<V>)
    requires Encloses(ctx, key) && View(ctx, Leaf, m, root) && !ctx.Top?
    ensures ctx.InLeft? <==> key < ctx.node.key
  {
    assert ctx.InLeft? ==> ctx.key in ([ctx.key] + Keys(ctx.right)) && ctx.key in After(ctx);
    assert ctx.InRight? ==> ctx.key in (Keys(ctx.left) + [ctx.key]) && ctx.key in Before(ctx);
  }

  lemma SortedCard(s: seq<int>)
    requires Sorted(s)
    ensures |set k | k in s| == |s|
  {
    if s != [] {
      var r := s[..|s| - 1];
      SortedCard(r);
      assert (set k | k in s) == (set k | k in r) + {s[|s| - 1]};
    }
  }

  lemma {:induction false} KeyOfNode<V>(t: Shape<V>, p: Node?<V>, m: Links<V>, n: Node<V>)
    requires Formed(t, p, m) && n in Nodes(t)
    ensures n.key in Keys(t)
  {
    if n in Nodes(t.left) {
      KeyOfNode(t.left, t.node, m, n);
    } else if n in Nodes(t.right) {
      KeyOfNode(t.right, t.node, m, n);
    }
  }

  /** A key sits in one node only. */
  lemma {:induction false} UniqueNode<V>(t: Shape<V>, p: Node?<V>, m: Links<V>, a: Node<V>, b: Node<V>)
    requires Formed(t, p, m) && Sorted(Keys(t)) && a in Nodes(t) && b in Nodes(t) && a.key == b.key
    ensures a == b
  {
    SortedSplit(Keys(t.left), t.key, Keys(t.right));
    if a in Nodes(t.left) { KeyOfNode(t.left, t.node, m, a); }
    if a in Nodes(t.right) { KeyOfNode(t.right, t.node, m, a); }
    if b in Nodes(t.left) { KeyOfNode(t.left, t.node, m, b); }
    if b in Nodes(t.right) { KeyOfNode(t.right, t.node, m, b); }
    if a in Nodes(t.left) && b in Nodes(t.left) { UniqueNode(t.left, t.node, m, a, b); }
    if a in Nodes(t.right) && b in Nodes(t.right) { UniqueNode(t.right, t.node, m, a, b); }
  }

  lemma UniqueNodes<V>(t: Shape<V>, m: Links<V>, root: Node?<V>, a: Node<V>)
    requires Ordered(t, m, root) && a in m
    ensures forall b :: b in m && b.key == a.key ==> b == a
    ensures a.key in Keys(t)
  {
    forall b | b in m && b.key == a.key
      ensures b == a
    {
      UniqueNode(t, null, m, a, b);
    }
    KeyOfNode(t, null, m, a);
  }

  lemma KeysGrown<V>(s: seq<int>, s': seq<int>, key: int, m: map<int, V>, v: V)
    requires m.Keys == (set k | k in s)
    requires forall k :: k in s' <==> k in s || k == key
    ensures m[key := v].Keys == (set k | k in s')
  {
    assert forall k :: k in m[key := v].Keys <==> k in s';
  }

  // ----- Erasing -----

  lemma ErasedKeys<V>(ctx: Place<V>, t: Shape<V>, whole: Shape<V>, key: int, m: Links<V>, root: Node?<V>)
    requires Seeks(ctx, t, whole, key, m, root) && t.Bin? && t.key == key
    ensures View(ctx, t, m, root) && RedBlack(Plug(ctx, t)) && t.node in m
    ensures Sorted(Without(ctx, t)) && |Without(ctx, t)| == |Keys(whole)| - 1
    ensures forall k :: k in Without(ctx, t) <==> k in Keys(whole) && k != key
  {
    AtNode(ctx, t, m, root);
    PlugKeysAt(ctx, t);
    SortedSplit(Before(ctx) + Keys(t.left), key, Keys(t.right) + After(ctx));
  }

  lemma KeysShrunk<V>(s: seq<int>, s': seq<int>, key: int, m: map<int, V>)
    requires m.Keys == (set k | k in s)
    requires forall k :: k in s' <==> k in s && k != key
    ensures (m - {key}).Keys == (set k | k in s')
  {
    assert forall k :: k in (m - {key}).Keys <==> k in s';
  }

  lemma AlreadyParent<V>(x: Node<V>, y: Node<V>, m: Links<V>)
    requires x in m && m[x].parent == y
    ensures m[x := m[x].(parent := y)] == m
  {
  }

  lemma {:induction false} LeastView<V>(ctx: Place<V>, t: Shape<V>, m: Links<V>, root: Node?<V>)
    requires t.Bin?
    ensures View(LeastCtx(ctx, t), Least(t).right, m, root) <==> View(ctx, WithoutLeast(t), m, root)
    ensures View(LeastCtx(ctx, t), Least(t), m, root) <==> View(ctx, t, m, root)
    decreases t
  {
    if t.left.Bin? {
      var c := InLeft(t.node, t.color, t.key, t.right, ctx);
      LeastView(c, t.left, m, root);
      ViewUp(c, WithoutLeast(t.left), m, root);
      ViewUp(c, t.left, m, root);
    }
  }

  lemma {:induction false} LeastHeadInside<V>(ctx: Place<V>, t: Shape<V>)
    requires t.Bin? && t.left.Bin?
    ensures !LeastCtx(ctx, t).Top? && LeastCtx(ctx, t).node in Nodes(t)
    decreases t
  {
    if t.left.left.Bin? {
      LeastHeadInside(InLeft(t.node, t.color, t.key, t.right, ctx), t.left);
    }
  }

  /** Whether the successor is a child of the erased node is what the comparison of links tells. */
  lemma SuccessorDepth<V>(ctx: Place<V>, t: Shape<V>, m: Links<V>, root: Node?<V>)
    requires View(ctx, t, m, root) && t.Bin? && t.right.Bin?
    ensures var c := InRight(t.node, t.color, t.key, t.left, ctx);
      Head(LeastCtx(c, t.right)) == t.node <==> t.right.left.Leaf?
  {
    var c := InRight(t.node, t.color, t.key, t.left, ctx);
    if t.right.left.Bin? { LeastHeadInside(c, t.right); }
  }

  ghost predicate CanLift<V>(z: Node<V>, y: Node<V>, m: Links<V>) {
    && z in m && y in m && z != y && m[y].right != y && CanTransplant(y, m[y].right, m) && m[y].parent != null
    && var m1 := Transplanted(y, m[y].right, m);
    && m1[z].right != null && m1[z].right in m && m1[z].right != y && m1[y].parent == m[y].parent
  }

  /** `transplant(y, y.right)`, then the right subtree of `z` goes to `y`. */
  ghost function Lifted<V>(z: Node<V>, y: Node<V>, m: Links<V>): (r: Links<V>)
    requires CanLift(z, y, m)
    ensures r.Keys == m.Keys
  {
    var m1 := Transplanted(y, m[y].right, m);
    var m2 := m1[y := m1[y].(right := m1[z].right)];
    m2[m1[z].right := m2[m1[z].right].(parent := y)]
  }

  /** Its own place closed and the right subtree in hand, the successor is ready to take over. */
  lemma DeepLift<V>(ctx: Place<V>, t: Shape<V>, m: Links<V>, root: Node?<V>)
    requires View(ctx, t, m, root) && t.Bin? && t.left.Bin? && t.right.Bin? && t.right.left.Bin?
    ensures var y := Least(t.right).node;
      && CanLift(t.node, y, m)
      && m[y].parent == Head(LeastCtx(InRight(y, t.color, y.key, t.left, ctx), t.right))
      && Ready(ctx, t.node, t.color, t.left, y, WithoutLeast(t.right), Lifted(t.node, y, m), root)
  {
    var c := InRight(t.node, t.color, t.key, t.left, ctx);
    var d, s := LeastCtx(c, t.right), Least(t.right);
    ViewUp(c, t.right, m, root);
    LeastView(c, t.right, m, root);
    AtNode(d, s, m, root);
    LeastHeadInside(c, t.right);
    ViewTransplanted(d, s, s.right, m, root);
    var m1 := Transplanted(s.node, Root(s.right), m);
    LeastView(c, t.right, m1 - {s.node}, root);
    ViewUp(c, WithoutLeast(t.right), m1 - {s.node}, root);
    ReadyDeep(ctx, Up(c, WithoutLeast(t.right)), s.node, m1, root);
    LeastHead(c, InRight(s.node, t.color, s.node.key, t.left, ctx), t.right);
  }

  lemma DeepEnd<V>(ctx: Place<V>, t: Shape<V>, y: Node<V>, m: Links<V>, root: Node?<V>)
    requires t.Bin? && t.right.Bin? && View(ctx, Bin(y, t.color, y.key, t.left, WithoutLeast(t.right)), m, root)
    ensures View(LeastCtx(InRight(y, t.color, y.key, t.left, ctx), t.right), Least(t.right).right, m, root)
  {
    var c := InRight(y, t.color, y.key, t.left, ctx);
    ViewUp(c, WithoutLeast(t.right), m, root);
    LeastView(c, t.right, m, root);
  }
}
