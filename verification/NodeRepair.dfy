/** Each branch of the repair loops, as assignments on the links, does the step of RedBlackRepair. */
module NodeRepair {
  import opened RedBlackTree
  import opened RedBlackRepair
  import opened NodeLinks

  /** The same node above, seen from its other child. */
  ghost function Across<N>(ctx: Ctx<N>, t: Tree<N>): Ctx<N>
    requires !ctx.Top?
  {
    if ctx.InLeft? then InRight(ctx.node, ctx.color, ctx.key, t, ctx.up)
    else InLeft(ctx.node, ctx.color, ctx.key, t, ctx.up)
  }

  lemma ViewAcross<V>(ctx: Place<V>, t: Shape<V>, m: Links<V>, root: Node?<V>)
    requires !ctx.Top?
    ensures View(ctx, t, m, root) <==> View(Across(ctx, t), Sibling(ctx), m, root)
  {
    ViewUp(ctx, t, m, root);
    ViewUp(Across(ctx, t), Sibling(ctx), m, root);
    assert Up(ctx, t) == Up(Across(ctx, t), Sibling(ctx));
  }

  /** Colour the node above the hole without moving. */
  ghost function Tinted<N>(ctx: Ctx<N>, c: Color): Ctx<N>
    requires !ctx.Top?
  {
    ctx.(color := c)
  }

  lemma ViewTinted<V>(ctx: Place<V>, t: Shape<V>, c: Color, m: Links<V>, root: Node?<V>)
    requires !ctx.Top? && View(ctx, t, m, root)
    ensures ctx.node in m && View(Tinted(ctx, c), t, Colored(ctx.node, c, m), root)
  {
    ViewUp(ctx, t, m, root);
    ViewColored(ctx.up, Up(ctx, t), c, m, root);
    ViewUp(Tinted(ctx, c), t, Colored(ctx.node, c, m), root);
    assert Up(Tinted(ctx, c), t) == Painted(Up(ctx, t), c);
  }

  /** Colour the sibling without moving. */
  ghost function SiblingPainted<N>(ctx: Ctx<N>, c: Color): Ctx<N>
    requires !ctx.Top?
  {
    if ctx.InLeft? then ctx.(right := Painted(ctx.right, c)) else ctx.(left := Painted(ctx.left, c))
  }

  lemma ViewSiblingPainted<V>(ctx: Place<V>, t: Shape<V>, c: Color, m: Links<V>, root: Node?<V>)
    requires !ctx.Top? && Sibling(ctx).Bin? && View(ctx, t, m, root)
    ensures Sibling(ctx).node in m && View(SiblingPainted(ctx, c), t, Colored(Sibling(ctx).node, c, m), root)
  {
    ViewAcross(ctx, t, m, root);
    ViewColored(Across(ctx, t), Sibling(ctx), c, m, root);
    ViewAcross(SiblingPainted(ctx, c), t, Colored(Sibling(ctx).node, c, m), root);
    assert Across(SiblingPainted(ctx, c), t) == Across(ctx, t);
  }

  // ----- Insertion -----

  lemma ViewUncleRed<V>(ctx: Place<V>, t: Shape<V>, m: Links<V>, root: Node?<V>)
    requires View(ctx, t, m, root) && !ctx.Top? && !ctx.up.Top? && Sibling(ctx.up).Bin?
    ensures ctx.node in m && Sibling(ctx.up).node in m && ctx.up.node in m
    ensures var m1 := Colored(ctx.node, Black, m);
            var m2 := Colored(Sibling(ctx.up).node, Black, m1);
            View(ctx.up.up, Recolored(ctx, t), Colored(ctx.up.node, Red, m2), root)
  {
    var p := Up(Tinted(ctx, Black), t);
    var m1 := Colored(ctx.node, Black, m);
    ViewTinted(ctx, t, Black, m, root);
    ViewUp(Tinted(ctx, Black), t, m1, root);
    ViewSiblingPainted(ctx.up, p, Black, m1, root);
    var g := SiblingPainted(ctx.up, Black);
    var m2 := Colored(Sibling(ctx.up).node, Black, m1);
    ViewUp(g, p, m2, root);
    ViewColored(g.up, Up(g, p), Red, m2, root);
  }

  lemma ViewInner<V>(ctx: Place<V>, t: Shape<V>, m: Links<V>, root: Node?<V>)
    requires View(ctx, t, m, root) && t.Bin? && !ctx.Top? && !ctx.up.Top?
    ensures ctx.InRight? ==> CanTurnLeft(ctx.node, m)
                             && View(InnerCtx(ctx, t), InnerTree(ctx, t), TurnedLeft(ctx.node, m), root)
    ensures ctx.InLeft? ==> CanTurnRight(ctx.node, m)
                            && View(InnerCtx(ctx, t), InnerTree(ctx, t), TurnedRight(ctx.node, m), root)
  {
    ViewUp(ctx, t, m, root);
    if ctx.InRight? {
      ViewTurnedLeft(ctx.up, Up(ctx, t), m, root);
      ViewUp(InnerCtx(ctx, t), InnerTree(ctx, t), TurnedLeft(ctx.node, m), root);
    } else {
      ViewTurnedRight(ctx.up, Up(ctx, t), m, root);
      ViewUp(InnerCtx(ctx, t), InnerTree(ctx, t), TurnedRight(ctx.node, m), root);
    }
  }

  lemma ViewOuter<V>(ctx: Place<V>, t: Shape<V>, m: Links<V>, root: Node?<V>)
    requires View(ctx, t, m, root) && !ctx.Top? && !ctx.up.Top? && (ctx.InLeft? <==> ctx.up.InLeft?)
    ensures ctx.node in m && ctx.up.node in m
    ensures var g, m2 := ctx.up.node, Colored(ctx.up.node, Red, Colored(ctx.node, Black, m));
            var root' := if ctx.up.up.Top? then ctx.node else root;
      && (ctx.InLeft? ==> CanTurnRight(g, m2) && View(OuterCtx(ctx), t, TurnedRight(g, m2), root'))
      && (ctx.InRight? ==> CanTurnLeft(g, m2) && View(OuterCtx(ctx), t, TurnedLeft(g, m2), root'))
  {
    var p := Up(Tinted(ctx, Black), t);
    var m1 := Colored(ctx.node, Black, m);
    ViewTinted(ctx, t, Black, m, root);
    ViewUp(Tinted(ctx, Black), t, m1, root);
    ViewTinted(ctx.up, p, Red, m1, root);
    var m2 := Colored(ctx.up.node, Red, m1);
    var g := Up(Tinted(ctx.up, Red), p);
    ViewUp(Tinted(ctx.up, Red), p, m2, root);
    var root' := if ctx.up.up.Top? then ctx.node else root;
    if ctx.InLeft? {
      ViewTurnedRight(ctx.up.up, g, m2, root);
      ViewUp(OuterCtx(ctx), t, TurnedRight(ctx.up.node, m2), root');
    } else {
      ViewTurnedLeft(ctx.up.up, g, m2, root);
      ViewUp(OuterCtx(ctx), t, TurnedLeft(ctx.up.node, m2), root');
    }
  }

  /** The parent and the grandparent of `z` are linked nodes. */
  ghost predicate Below2<V>(z: Node<V>, m: Links<V>) {
    && z in m && m[z].parent != null && m[z].parent in m
    && m[m[z].parent].parent != null && m[m[z].parent].parent in m
  }

  ghost function Grandparent<V>(z: Node<V>, m: Links<V>): Node<V>
    requires Below2(z, m)
  {
    m[m[z].parent].parent
  }

  ghost function OuterColors<V>(z: Node<V>, m: Links<V>): Links<V>
    requires Below2(z, m)
  {
    Colored(Grandparent(z, m), Red, Colored(m[z].parent, Black, m))
  }

  ghost function UncleRedLinks<V>(z: Node<V>, y: Node<V>, m: Links<V>): (r: Links<V>)
    requires y in m && Below2(z, m)
    ensures r.Keys == m.Keys
  {
    Colored(Grandparent(z, m), Red, Colored(y, Black, Colored(m[z].parent, Black, m)))
  }

  ghost predicate CanTurnOuter<V>(left: bool, z: Node<V>, m: Links<V>)
    requires Below2(z, m)
  {
    if left then CanTurnRight(Grandparent(z, m), OuterColors(z, m)) && OuterColors(z, m)[Grandparent(z, m)].left == m[z].parent
    else CanTurnLeft(Grandparent(z, m), OuterColors(z, m)) && OuterColors(z, m)[Grandparent(z, m)].right == m[z].parent
  }

  ghost function OuterLinks<V>(left: bool, z: Node<V>, m: Links<V>): (r: Links<V>)
    requires Below2(z, m) && CanTurnOuter(left, z, m)
    ensures r.Keys == m.Keys
  {
    if left then TurnedRight(Grandparent(z, m), OuterColors(z, m)) else TurnedLeft(Grandparent(z, m), OuterColors(z, m))
  }

  ghost function OuterRoot<V>(z: Node<V>, m: Links<V>, root: Node?<V>): Node?<V>
    requires Below2(z, m)
  {
    if m[Grandparent(z, m)].parent == null then m[z].parent else root
  }

  /** Everything a branch of the insertion repair reads around a node with a red parent. */
  lemma InsertReads<V>(ctx: Place<V>, t: Shape<V>, m: Links<V>, root: Node?<V>)
    requires View(ctx, t, m, root) && InsertInv(ctx, t) && HeadRed(ctx)
    ensures !ctx.up.Top? && Below2(t.node, m) && m[t.node].parent == ctx.node && Grandparent(t.node, m) == ctx.up.node
    ensures ctx.InLeft? <==> m[ctx.node].left == t.node
    ensures ctx.InRight? <==> m[ctx.node].right == t.node
    ensures ctx.up.InLeft? <==> m[ctx.up.node].left == ctx.node
    ensures ctx.up.InLeft? ==> m[ctx.up.node].right == Root(Sibling(ctx.up))
    ensures ctx.up.InRight? ==> m[ctx.up.node].left == Root(Sibling(ctx.up))
    ensures m[ctx.up.node].parent == Head(ctx.up.up)
    ensures var u := Sibling(ctx.up); u.Bin? ==> u.node in m && m[u.node].color == u.color
  {
    GrandparentExists(ctx, t);
    AtNode(ctx, t, m, root);
    AtParent(ctx, t, m, root);
    ViewUp(ctx, t, m, root);
    AtParent(ctx.up, Up(ctx, t), m, root);
  }

  lemma UncleRedView<V>(ctx: Place<V>, t: Shape<V>, m: Links<V>, root: Node?<V>)
    requires View(ctx, t, m, root) && InsertInv(ctx, t) && HeadRed(ctx) && !ctx.up.Top? && IsRed(Sibling(ctx.up))
    ensures Below2(t.node, m) && Sibling(ctx.up).node in m
    ensures var t' := Recolored(ctx, t);
      && View(ctx.up.up, t', UncleRedLinks(t.node, Sibling(ctx.up).node, m), root)
      && InsertInv(ctx.up.up, t') && t'.node == Grandparent(t.node, m) && SameKeys(ctx, t, ctx.up.up, t')
      && Depth(ctx.up.up) < Depth(ctx)
  {
    InsertReads(ctx, t, m, root);
    ViewUncleRed(ctx, t, m, root);
    UncleRedStep(ctx, t);
  }

  lemma OuterView<V>(ctx: Place<V>, t: Shape<V>, m: Links<V>, root: Node?<V>)
    requires View(ctx, t, m, root) && InsertInv(ctx, t) && HeadRed(ctx) && !ctx.up.Top? && !IsRed(Sibling(ctx.up))
    requires ctx.InLeft? <==> ctx.up.InLeft?
    ensures Below2(t.node, m) && CanTurnOuter(ctx.InLeft?, t.node, m)
    ensures View(OuterCtx(ctx), t, OuterLinks(ctx.InLeft?, t.node, m), OuterRoot(t.node, m, root))
    ensures InsertInv(OuterCtx(ctx), t) && !HeadRed(OuterCtx(ctx)) && Depth(OuterCtx(ctx)) < Depth(ctx)
    ensures SameKeys(ctx, t, OuterCtx(ctx), t)
  {
    InsertReads(ctx, t, m, root);
    ViewOuter(ctx, t, m, root);
    OuterStep(ctx, t);
  }

  // ----- Erasure -----

  lemma ViewSiblingRed<V>(ctx: Place<V>, t: Shape<V>, m: Links<V>, root: Node?<V>)
    requires View(ctx, t, m, root) && !ctx.Top? && Sibling(ctx).Bin?
    ensures CanSiblingRed(ctx.InLeft?, ctx.node, Sibling(ctx).node, m)
    ensures View(SiblingRedCtx(ctx), t, SiblingRedLinks(ctx.InLeft?, ctx.node, Sibling(ctx).node, m),
                 RaisedRoot(ctx.node, Sibling(ctx).node, m, root))
  {
    AtParent(ctx, t, m, root);
    var c1, m1 := SiblingPainted(ctx, Black), Colored(Sibling(ctx).node, Black, m);
    ViewSiblingPainted(ctx, t, Black, m, root);
    var c2, m2 := Tinted(c1, Red), Colored(ctx.node, Red, m1);
    ViewTinted(c1, t, Red, m1, root);
    ViewUp(c2, t, m2, root);
    var root' := if ctx.up.Top? then Sibling(ctx).node else root;
    var r := SiblingRedCtx(ctx);
    if ctx.InLeft? {
      ViewTurnedLeft(ctx.up, Up(c2, t), m2, root);
      ViewUp(r, t, TurnedLeft(ctx.node, m2), root');
      ViewUp(r.up, Up(r, t), TurnedLeft(ctx.node, m2), root');
    } else {
      ViewTurnedRight(ctx.up, Up(c2, t), m2, root);
      ViewUp(r, t, TurnedRight(ctx.node, m2), root');
      ViewUp(r.up, Up(r, t), TurnedRight(ctx.node, m2), root');
    }
  }

  lemma ViewPushedUp<V>(ctx: Place<V>, t: Shape<V>, m: Links<V>, root: Node?<V>)
    requires View(ctx, t, m, root) && !ctx.Top? && Sibling(ctx).Bin?
    ensures Sibling(ctx).node in m
    ensures View(ctx.up, PushedUp(ctx, t), Colored(Sibling(ctx).node, Red, m), root)
  {
    ViewSiblingPainted(ctx, t, Red, m, root);
    ViewUp(SiblingPainted(ctx, Red), t, Colored(Sibling(ctx).node, Red, m), root);
  }

  lemma ViewNephew<V>(ctx: Place<V>, t: Shape<V>, m: Links<V>, root: Node?<V>)
    requires View(ctx, t, m, root) && !ctx.Top? && Sibling(ctx).Bin? && InnerNephew(ctx).Bin?
    ensures CanNephew(ctx.InLeft?, Sibling(ctx).node, m)
    ensures View(NephewCtx(ctx), t, NephewLinks(ctx.InLeft?, Sibling(ctx).node, m), root)
  {
    var a, w, n := Across(ctx, t), Sibling(ctx), InnerNephew(ctx);
    ViewAcross(ctx, t, m, root);
    AtNode(a, w, m, root);
    var d := if ctx.InLeft? then InLeft(w.node, w.color, w.key, w.right, a) else InRight(w.node, w.color, w.key, w.left, a);
    ViewUp(d, n, m, root);
    assert Up(d, n) == w;
    ViewColored(d, n, Black, m, root);
    var m1 := Colored(n.node, Black, m);
    ViewTinted(d, Painted(n, Black), Red, m1, root);
    var m2 := Colored(w.node, Red, m1);
    var w' := Up(Tinted(d, Red), Painted(n, Black));
    ViewUp(Tinted(d, Red), Painted(n, Black), m2, root);
    assert Across(NephewCtx(ctx), t) == a;
    if ctx.InLeft? {
      ViewTurnedRight(a, w', m2, root);
      ViewAcross(NephewCtx(ctx), t, TurnedRight(w.node, m2), root);
    } else {
      ViewTurnedLeft(a, w', m2, root);
      ViewAcross(NephewCtx(ctx), t, TurnedLeft(w.node, m2), root);
    }
  }

  lemma ViewSettled<V>(ctx: Place<V>, t: Shape<V>, m: Links<V>, root: Node?<V>)
    requires View(ctx, t, m, root) && !ctx.Top? && Sibling(ctx).Bin? && OuterNephew(ctx).Bin?
    ensures CanSettle(ctx.InLeft?, ctx.node, Sibling(ctx).node, m)
    ensures View(ctx.up, Settled(ctx, t), SettledLinks(ctx.InLeft?, ctx.node, Sibling(ctx).node, m),
                 RaisedRoot(ctx.node, Sibling(ctx).node, m, root))
  {
    AtParent(ctx, t, m, root);
    var c1, m1 := SiblingPainted(ctx, ctx.color), Colored(Sibling(ctx).node, ctx.color, m);
    ViewSiblingPainted(ctx, t, ctx.color, m, root);
    var c2, m2 := Tinted(c1, Black), Colored(ctx.node, Black, m1);
    ViewTinted(c1, t, Black, m1, root);
    ViewOuterNephewPainted(c2, t, m2, root);
    var c3, m3 := NephewPainted(c2), Colored(OuterNephew(ctx).node, Black, m2);
    ViewUp(c3, t, m3, root);
    if ctx.InLeft? {
      ViewTurnedLeft(ctx.up, Up(c3, t), m3, root);
    } else {
      ViewTurnedRight(ctx.up, Up(c3, t), m3, root);
    }
  }

  ghost function NephewPainted<N>(ctx: Ctx<N>): Ctx<N>
    requires !ctx.Top? && Sibling(ctx).Bin?
  {
    if ctx.InLeft? then ctx.(right := ctx.right.(right := Painted(ctx.right.right, Black)))
    else ctx.(left := ctx.left.(left := Painted(ctx.left.left, Black)))
  }

  lemma ViewOuterNephewPainted<V>(ctx: Place<V>, t: Shape<V>, m: Links<V>, root: Node?<V>)
    requires View(ctx, t, m, root) && !ctx.Top? && Sibling(ctx).Bin? && OuterNephew(ctx).Bin?
    ensures OuterNephew(ctx).node in m
    ensures View(NephewPainted(ctx), t, Colored(OuterNephew(ctx).node, Black, m), root)
  {
    var a, w, n := Across(ctx, t), Sibling(ctx), OuterNephew(ctx);
    ViewAcross(ctx, t, m, root);
    var d := if ctx.InLeft? then InRight(w.node, w.color, w.key, w.left, a) else InLeft(w.node, w.color, w.key, w.right, a);
    ViewUp(d, n, m, root);
    assert Up(d, n) == w;
    ViewColored(d, n, Black, m, root);
    var m1 := Colored(n.node, Black, m);
    ViewUp(d, Painted(n, Black), m1, root);
    assert Across(NephewPainted(ctx), t) == a;
    ViewAcross(NephewPainted(ctx), t, m1, root);
  }

  // The assignments of each branch, on the links: `p` is the parent of the short subtree, `w` its
  // sibling, and `left` says on which side of `p` the short subtree hangs.

  ghost predicate CanSiblingRed<V>(left: bool, p: Node<V>, w: Node<V>, m: Links<V>) {
    && p in m && w in m
    && var m2 := Colored(p, Red, Colored(w, Black, m));
       (if left then CanTurnLeft(p, m2) && m2[p].right == w else CanTurnRight(p, m2) && m2[p].left == w)
  }

  ghost function SiblingRedLinks<V>(left: bool, p: Node<V>, w: Node<V>, m: Links<V>): (r: Links<V>)
    requires CanSiblingRed(left, p, w, m)
    ensures r.Keys == m.Keys
  {
    var m2 := Colored(p, Red, Colored(w, Black, m));
    if left then TurnedLeft(p, m2) else TurnedRight(p, m2)
  }

  /** A node that was the root has made room for its child `w`. */
  ghost function RaisedRoot<V>(p: Node<V>, w: Node<V>, m: Links<V>, root: Node?<V>): Node?<V>
    requires p in m
  {
    if m[p].parent == null then w else root
  }

  ghost function InnerNephew<N>(ctx: Ctx<N>): Tree<N>
    requires !ctx.Top? && Sibling(ctx).Bin?
  {
    if ctx.InLeft? then Sibling(ctx).left else Sibling(ctx).right
  }

  ghost function OuterNephew<N>(ctx: Ctx<N>): Tree<N>
    requires !ctx.Top? && Sibling(ctx).Bin?
  {
    if ctx.InLeft? then Sibling(ctx).right else Sibling(ctx).left
  }

  ghost predicate CanNephew<V>(left: bool, w: Node<V>, m: Links<V>) {
    && w in m && m[w].parent != null
    && var n := if left then m[w].left else m[w].right;
    && n != null && n in m
    && var m2 := Colored(w, Red, Colored(n, Black, m));
       (if left then CanTurnRight(w, m2) else CanTurnLeft(w, m2))
  }

  ghost function NephewLinks<V>(left: bool, w: Node<V>, m: Links<V>): (r: Links<V>)
    requires CanNephew(left, w, m)
    ensures r.Keys == m.Keys
  {
    var n := if left then m[w].left else m[w].right;
    var m2 := Colored(w, Red, Colored(n, Black, m));
    if left then TurnedRight(w, m2) else TurnedLeft(w, m2)
  }

  ghost predicate CanSettle<V>(left: bool, p: Node<V>, w: Node<V>, m: Links<V>) {
    && p in m && w in m && p != w
    && var n := if left then m[w].right else m[w].left;
    && n != null && n in m
    && var m3 := SettleColors(left, p, w, m);
       (if left then CanTurnLeft(p, m3) && m3[p].right == w else CanTurnRight(p, m3) && m3[p].left == w)
       && m3[p].parent == m[p].parent
  }

  ghost function SettleColors<V>(left: bool, p: Node<V>, w: Node<V>, m: Links<V>): (r: Links<V>)
    requires p in m && w in m && (if left then m[w].right != null && m[w].right in m else m[w].left != null && m[w].left in m)
    ensures r.Keys == m.Keys
  {
    var n := if left then m[w].right else m[w].left;
    Colored(n, Black, Colored(p, Black, Colored(w, m[p].color, m)))
  }

  ghost function SettledLinks<V>(left: bool, p: Node<V>, w: Node<V>, m: Links<V>): (r: Links<V>)
    requires CanSettle(left, p, w, m)
    ensures r.Keys == m.Keys
  {
    if left then TurnedLeft(p, SettleColors(left, p, w, m)) else TurnedRight(p, SettleColors(left, p, w, m))
  }

  /** Everything a branch of the erasure repair reads around the short subtree. */
  lemma EraseReads<V>(ctx: Place<V>, t: Shape<V>, m: Links<V>, root: Node?<V>)
    requires View(ctx, t, m, root) && EraseInv(ctx, t) && !ctx.Top?
    ensures var w := Sibling(ctx);
      && w.Bin? && ctx.node in m && m[ctx.node].parent == Head(ctx.up)
      && (ctx.InLeft? ==> m[ctx.node].left == Root(t) && m[ctx.node].right == w.node)
      && (ctx.InRight? ==> m[ctx.node].right == Root(t) && m[ctx.node].left == w.node)
      && Root(t) != w.node
      && w.node in m && m[w.node] == Link(Root(w.left), Root(w.right), ctx.node, w.color)
      && (w.left.Bin? ==> w.left.node in m && m[w.left.node].color == w.left.color)
      && (w.right.Bin? ==> w.right.node in m && m[w.right.node].color == w.right.color)
  {
    SiblingExists(ctx, t);
    AtParent(ctx, t, m, root);
    ViewAcross(ctx, t, m, root);
    AtNode(Across(ctx, t), Sibling(ctx), m, root);
  }
}
