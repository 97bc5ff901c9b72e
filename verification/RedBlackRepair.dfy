/** The repair loops of insertion and erasure as steps on a context and the subtree at its hole.

    A loop invariant is a predicate on such a pair, every branch of a loop is a function on it, and
    each lemma says that the branch keeps the invariant and the in-order keys of the whole tree. */
module RedBlackRepair {
  import opened RedBlackTree

  ghost function Sibling<N>(ctx: Ctx<N>): Tree<N>
    requires !ctx.Top?
  {
    if ctx.InLeft? then ctx.right else ctx.left
  }

  ghost predicate SameKeys<N>(ctx: Ctx<N>, t: Tree<N>, ctx': Ctx<N>, t': Tree<N>) {
    Keys(Plug(ctx, t)) == Keys(Plug(ctx', t'))
  }

  lemma SameKeysBelow<N>(ctx: Ctx<N>, t: Tree<N>, t': Tree<N>)
    requires Keys(t) == Keys(t')
    ensures SameKeys(ctx, t, ctx, t')
  {
    PlugKeys(ctx, t);
    PlugKeys(ctx, t');
  }

  ghost function RotatedLeft<N>(t: Tree<N>): Tree<N>
    requires t.Bin? && t.right.Bin?
  {
    var y := t.right;
    Bin(y.node, y.color, y.key, Bin(t.node, t.color, t.key, t.left, y.left), y.right)
  }

  ghost function RotatedRight<N>(t: Tree<N>): Tree<N>
    requires t.Bin? && t.left.Bin?
  {
    var y := t.left;
    Bin(y.node, y.color, y.key, y.left, Bin(t.node, t.color, t.key, y.right, t.right))
  }

  lemma Reassociate(a: seq<int>, x: seq<int>, b: seq<int>, y: seq<int>, c: seq<int>)
    ensures a + x + (b + y + c) == (a + x + b) + y + c
  {
  }

  lemma RotatedKeys<N>(t: Tree<N>)
    ensures t.Bin? && t.right.Bin? ==> Keys(RotatedLeft(t)) == Keys(t)
    ensures t.Bin? && t.left.Bin? ==> Keys(RotatedRight(t)) == Keys(t)
  {
    if t.Bin? && t.right.Bin? {
      RotatedLeftKeys(t);
    }
    if t.Bin? && t.left.Bin? {
      var y := t.left;
      RotatedLeftKeys(RotatedRight(t));
      assert RotatedLeft(RotatedRight(t)) == t;
    }
  }

  lemma RotatedLeftKeys<N>(t: Tree<N>)
    requires t.Bin? && t.right.Bin?
    ensures Keys(RotatedLeft(t)) == Keys(t)
  {
    var y := t.right;
    Reassociate(Keys(t.left), [t.key], Keys(y.left), [y.key], Keys(y.right));
    assert Keys(t.right) == Keys(y.left) + [y.key] + Keys(y.right);
    assert Keys(RotatedLeft(t).left) == Keys(t.left) + [t.key] + Keys(y.left);
  }

  lemma PaintedKeys<N>(t: Tree<N>, c: Color)
    ensures Keys(Painted(t, c)) == Keys(t)
  {
  }

  // ----- Insertion -----

  /** The subtree at the hole is balanced with a red root, and it fits where it hangs except that
      the node above it may be red as well. */
  ghost predicate InsertInv<N>(ctx: Ctx<N>, t: Tree<N>) {
    && IsRed(t) && Balanced(t) && Fits(ctx, BlackHeight(t))
    && (!ctx.Top? ==> TopColor(ctx) == Black)
  }

  lemma InsertStart<N>(ctx: Ctx<N>, n: N, key: int)
    requires RedBlack(Plug(ctx, Leaf))
    ensures InsertInv(ctx, Bin(n, Red, key, Leaf, Leaf))
  {
    PlugBalanced(ctx, Leaf);
    if !ctx.Top? { PlugColor(ctx, Leaf); }
  }

  lemma InsertStartKeys<N>(ctx: Ctx<N>, n: N, key: int)
    requires Encloses(ctx, key) && Sorted(Keys(Plug(ctx, Leaf)))
    ensures Sorted(Keys(Plug(ctx, Bin(n, Red, key, Leaf, Leaf))))
    ensures Keys(Plug(ctx, Leaf)) == Before(ctx) + After(ctx)
    ensures Keys(Plug(ctx, Bin(n, Red, key, Leaf, Leaf))) == Before(ctx) + [key] + After(ctx)
  {
    PlugKeys(ctx, Leaf);
    PlugKeys(ctx, Bin(n, Red, key, Leaf, Leaf));
    assert Before(ctx) + [] + After(ctx) == Before(ctx) + After(ctx);
    assert [] + [key] + [] == [key];
    SortedJoin(Before(ctx), key, After(ctx));
  }

  /** A red parent is never the root, so the grandparent the loop reads exists, and it is black. */
  lemma GrandparentExists<N>(ctx: Ctx<N>, t: Tree<N>)
    requires InsertInv(ctx, t) && HeadRed(ctx)
    ensures !ctx.up.Top? && ctx.up.color == Black && !IsRed(Sibling(ctx))
  {
  }

  /** Uncle red: parent and uncle become black, the grandparent red, and the loop goes on there. */
  ghost function Recolored<N>(ctx: Ctx<N>, t: Tree<N>): Tree<N>
    requires !ctx.Top? && !ctx.up.Top?
  {
    var g := ctx.up;
    if g.InLeft? then Bin(g.node, Red, g.key, Painted(Up(ctx, t), Black), Painted(g.right, Black))
    else Bin(g.node, Red, g.key, Painted(g.left, Black), Painted(Up(ctx, t), Black))
  }

  lemma UncleRedStep<N>(ctx: Ctx<N>, t: Tree<N>)
    requires InsertInv(ctx, t) && HeadRed(ctx) && !ctx.up.Top? && IsRed(Sibling(ctx.up))
    ensures InsertInv(ctx.up.up, Recolored(ctx, t))
    ensures SameKeys(ctx, t, ctx.up.up, Recolored(ctx, t))
  {
    assert Fits(ctx.up, BlackHeight(t)) && Fits(ctx.up.up, BlackHeight(t) + 1);
    assert TopColor(ctx) == TopColor(ctx.up);
    PaintedKeys(Up(ctx, t), Black);
    PaintedKeys(Sibling(ctx.up), Black);
    assert Keys(Recolored(ctx, t)) == Keys(Up(ctx.up, Up(ctx, t)));
    SameKeysBelow(ctx.up.up, Recolored(ctx, t), Up(ctx.up, Up(ctx, t)));
  }

  /** Inner grandchild: after the inner rotation the parent is an outer grandchild below `t.node`. */
  ghost function InnerCtx<N>(ctx: Ctx<N>, t: Tree<N>): Ctx<N>
    requires !ctx.Top? && t.Bin?
  {
    if ctx.InRight? then InLeft(t.node, t.color, t.key, t.right, ctx.up)
    else InRight(t.node, t.color, t.key, t.left, ctx.up)
  }

  ghost function InnerTree<N>(ctx: Ctx<N>, t: Tree<N>): Tree<N>
    requires !ctx.Top? && t.Bin?
  {
    if ctx.InRight? then Bin(ctx.node, ctx.color, ctx.key, ctx.left, t.left)
    else Bin(ctx.node, ctx.color, ctx.key, t.right, ctx.right)
  }

  lemma InnerStep<N>(ctx: Ctx<N>, t: Tree<N>)
    requires InsertInv(ctx, t) && HeadRed(ctx) && !ctx.up.Top?
    ensures InsertInv(InnerCtx(ctx, t), InnerTree(ctx, t))
    ensures HeadRed(InnerCtx(ctx, t)) && InnerCtx(ctx, t).up == ctx.up
    ensures SameKeys(ctx, t, InnerCtx(ctx, t), InnerTree(ctx, t))
  {
    RotatedKeys(Up(ctx, t));
    var s := Up(InnerCtx(ctx, t), InnerTree(ctx, t));
    assert s == if ctx.InRight? then RotatedLeft(Up(ctx, t)) else RotatedRight(Up(ctx, t));
    SameKeysBelow(ctx.up, Up(ctx, t), s);
  }

  /** Outer grandchild: the parent turns black and takes the grandparent's place. */
  ghost function OuterCtx<N>(ctx: Ctx<N>): Ctx<N>
    requires !ctx.Top? && !ctx.up.Top?
  {
    var g := ctx.up;
    if ctx.InLeft? then InLeft(ctx.node, Black, ctx.key, Bin(g.node, Red, g.key, ctx.right, Sibling(g)), g.up)
    else InRight(ctx.node, Black, ctx.key, Bin(g.node, Red, g.key, Sibling(g), ctx.left), g.up)
  }

  lemma OuterStep<N>(ctx: Ctx<N>, t: Tree<N>)
    requires InsertInv(ctx, t) && HeadRed(ctx) && !ctx.up.Top? && !IsRed(Sibling(ctx.up))
    requires ctx.InLeft? <==> ctx.up.InLeft?
    ensures InsertInv(OuterCtx(ctx), t) && !HeadRed(OuterCtx(ctx)) && Depth(OuterCtx(ctx)) < Depth(ctx)
    ensures SameKeys(ctx, t, OuterCtx(ctx), t)
  {
    var s := Up(ctx.up, Up(ctx, t));
    RotatedKeys(s);
    var s' := Up(OuterCtx(ctx), t);
    assert Fits(ctx.up, BlackHeight(t)) && Fits(ctx.up.up, BlackHeight(t) + 1);
    assert TopColor(ctx) == TopColor(ctx.up);
    assert Keys(s') == Keys(if ctx.InLeft? then RotatedRight(s) else RotatedLeft(s));
    SameKeysBelow(ctx.up.up, s, s');
  }

  /** Where the loop stops, blackening the root restores every rule. */
  lemma InsertEnd<N>(ctx: Ctx<N>, t: Tree<N>)
    requires InsertInv(ctx, t) && !HeadRed(ctx)
    ensures RedBlack(Painted(Plug(ctx, t), Black))
    ensures !ctx.Top? ==> Painted(Plug(ctx, t), Black) == Plug(ctx, t)
    ensures Plug(ctx, t).Bin?
  {
    PlugBalanced(ctx, t);
    if !ctx.Top? { PlugColor(ctx, t); PlugBin(ctx, t); }
  }

  lemma {:induction false} PlugBin<N>(ctx: Ctx<N>, t: Tree<N>)
    requires !ctx.Top? || t.Bin?
    ensures Plug(ctx, t).Bin?
    decreases ctx
  {
    if !ctx.Top? { PlugBin(ctx.up, Up(ctx, t)); }
  }

  // ----- Erasure -----

  /** The subtree at the hole is exactly one black short of what its place needs; apart from the
      colour of its root, which may be red over a red child, it is balanced. */
  ghost predicate EraseInv<N>(ctx: Ctx<N>, t: Tree<N>) {
    && Balanced(Painted(t, Black)) && Fits(ctx, BlackHeight(t) + 1)
    && (!ctx.Top? ==> TopColor(ctx) == Black)
  }

  /** The sibling the loop dereferences is never missing. */
  lemma SiblingExists<N>(ctx: Ctx<N>, t: Tree<N>)
    requires EraseInv(ctx, t) && !ctx.Top?
    ensures Sibling(ctx).Bin?
    ensures IsRed(Sibling(ctx)) ==> Sibling(ctx).left.Bin? && Sibling(ctx).right.Bin?
  {
    var w := Sibling(ctx);
    if w.Bin? && IsRed(w) {
      assert BlackHeight(w.left) == BlackHeight(w.right) >= 1;
    }
  }

  /** Sibling red: it turns black and moves up over the parent, which turns red. */
  ghost function SiblingRedCtx<N>(ctx: Ctx<N>): Ctx<N>
    requires !ctx.Top? && Sibling(ctx).Bin?
  {
    var w := Sibling(ctx);
    if ctx.InLeft? then InLeft(ctx.node, Red, ctx.key, w.left, InLeft(w.node, Black, w.key, w.right, ctx.up))
    else InRight(ctx.node, Red, ctx.key, w.right, InRight(w.node, Black, w.key, w.left, ctx.up))
  }

  lemma SiblingRedStep<N>(ctx: Ctx<N>, t: Tree<N>)
    requires EraseInv(ctx, t) && !ctx.Top? && IsRed(Sibling(ctx))
    ensures EraseInv(SiblingRedCtx(ctx), t) && !IsRed(Sibling(SiblingRedCtx(ctx)))
    ensures SameKeys(ctx, t, SiblingRedCtx(ctx), t)
  {
    var s := Up(ctx, t);
    RotatedKeys(s);
    var s' := Up(SiblingRedCtx(ctx).up, Up(SiblingRedCtx(ctx), t));
    assert Keys(s') == Keys(if ctx.InLeft? then RotatedLeft(s) else RotatedRight(s));
    SameKeysBelow(ctx.up, s, s');
  }

  /** Sibling black with black children: it turns red and the shortage moves to the parent. */
  ghost function PushedUp<N>(ctx: Ctx<N>, t: Tree<N>): Tree<N>
    requires !ctx.Top?
  {
    if ctx.InLeft? then Bin(ctx.node, ctx.color, ctx.key, t, Painted(ctx.right, Red))
    else Bin(ctx.node, ctx.color, ctx.key, Painted(ctx.left, Red), t)
  }

  lemma PushUpStep<N>(ctx: Ctx<N>, t: Tree<N>)
    requires EraseInv(ctx, t) && !ctx.Top? && !IsRed(t)
    requires Sibling(ctx).Bin? && !IsRed(Sibling(ctx)) && !IsRed(Sibling(ctx).left) && !IsRed(Sibling(ctx).right)
    ensures EraseInv(ctx.up, PushedUp(ctx, t))
    ensures SameKeys(ctx, t, ctx.up, PushedUp(ctx, t))
  {
    PaintedKeys(Sibling(ctx), Red);
    SameKeysBelow(ctx.up, Up(ctx, t), PushedUp(ctx, t));
  }

  /** Only the inner nephew is red: it turns black and rotates over the sibling, which turns red. */
  ghost function NephewTurned<N>(ctx: Ctx<N>): Tree<N>
    requires !ctx.Top? && Sibling(ctx).Bin?
    requires if ctx.InLeft? then Sibling(ctx).left.Bin? else Sibling(ctx).right.Bin?
  {
    var w := Painted(Sibling(ctx), Red);
    if ctx.InLeft? then RotatedRight(w.(left := Painted(w.left, Black)))
    else RotatedLeft(w.(right := Painted(w.right, Black)))
  }

  ghost function NephewCtx<N>(ctx: Ctx<N>): Ctx<N>
    requires !ctx.Top? && Sibling(ctx).Bin?
    requires if ctx.InLeft? then Sibling(ctx).left.Bin? else Sibling(ctx).right.Bin?
  {
    if ctx.InLeft? then ctx.(right := NephewTurned(ctx)) else ctx.(left := NephewTurned(ctx))
  }

  ghost predicate OuterNephewRed<N>(ctx: Ctx<N>)
    requires !ctx.Top? && Sibling(ctx).Bin?
  {
    IsRed(if ctx.InLeft? then Sibling(ctx).right else Sibling(ctx).left)
  }

  ghost predicate InnerNephewRed<N>(ctx: Ctx<N>)
    requires !ctx.Top? && Sibling(ctx).Bin?
  {
    IsRed(if ctx.InLeft? then Sibling(ctx).left else Sibling(ctx).right)
  }

  lemma NephewBalanced<N>(ctx: Ctx<N>, w: Tree<N>)
    requires !ctx.Top? && w == Sibling(ctx) && w.Bin? && Balanced(w) && !IsRed(w)
    requires InnerNephewRed(ctx) && !OuterNephewRed(ctx)
    ensures Balanced(NephewTurned(ctx)) && BlackHeight(NephewTurned(ctx)) == BlackHeight(w)
    ensures !IsRed(NephewTurned(ctx))
    ensures IsRed(if ctx.InLeft? then NephewTurned(ctx).right else NephewTurned(ctx).left)
  {
    var n := if ctx.InLeft? then w.left else w.right;
    assert Balanced(w.left) && Balanced(w.right) && BlackHeight(w.left) == BlackHeight(w.right);
    assert Balanced(n.left) && Balanced(n.right) && BlackHeight(n.left) == BlackHeight(n.right) == BlackHeight(n);
    if ctx.InLeft? {
      assert NephewTurned(ctx) == Bin(n.node, Black, n.key, n.left, Bin(w.node, Red, w.key, n.right, w.right));
    } else {
      assert NephewTurned(ctx) == Bin(n.node, Black, n.key, Bin(w.node, Red, w.key, w.left, n.left), n.right);
    }
  }

  lemma NephewStep<N>(ctx: Ctx<N>, t: Tree<N>)
    requires EraseInv(ctx, t) && !ctx.Top? && Sibling(ctx).Bin? && !IsRed(Sibling(ctx))
    requires InnerNephewRed(ctx) && !OuterNephewRed(ctx)
    ensures EraseInv(NephewCtx(ctx), t) && Sibling(NephewCtx(ctx)).Bin?
    ensures !IsRed(Sibling(NephewCtx(ctx))) && OuterNephewRed(NephewCtx(ctx))
    ensures SameKeys(ctx, t, NephewCtx(ctx), t)
  {
    var w := Sibling(ctx);
    NephewBalanced(ctx, w);
    RotatedKeys(w);
    assert Keys(NephewTurned(ctx)) == Keys(if ctx.InLeft? then RotatedRight(w) else RotatedLeft(w));
    SameKeysBelow(ctx.up, Up(ctx, t), Up(NephewCtx(ctx), t));
  }

  /** Outer nephew red: the sibling takes the parent's place and colour, parent and nephew turn black. */
  ghost function Settled<N>(ctx: Ctx<N>, t: Tree<N>): Tree<N>
    requires !ctx.Top? && Sibling(ctx).Bin?
  {
    var w := Sibling(ctx);
    if ctx.InLeft? then
      Bin(w.node, ctx.color, w.key, Bin(ctx.node, Black, ctx.key, t, w.left), Painted(w.right, Black))
    else
      Bin(w.node, ctx.color, w.key, Painted(w.left, Black), Bin(ctx.node, Black, ctx.key, w.right, t))
  }

  lemma SettleStep<N>(ctx: Ctx<N>, t: Tree<N>)
    requires EraseInv(ctx, t) && !ctx.Top? && !IsRed(t)
    requires Sibling(ctx).Bin? && !IsRed(Sibling(ctx)) && OuterNephewRed(ctx)
    ensures RedBlack(Plug(ctx.up, Settled(ctx, t)))
    ensures SameKeys(ctx, t, ctx.up, Settled(ctx, t))
  {
    var s := Up(ctx, t);
    RotatedKeys(s);
    assert Keys(Settled(ctx, t)) == Keys(if ctx.InLeft? then RotatedLeft(s) else RotatedRight(s));
    SameKeysBelow(ctx.up, s, Settled(ctx, t));
    SettledBalanced(ctx, t);
    PlugBalanced(ctx.up, Settled(ctx, t));
    if !ctx.up.Top? { PlugColor(ctx.up, Settled(ctx, t)); }
  }

  lemma SettledBalanced<N>(ctx: Ctx<N>, t: Tree<N>)
    requires EraseInv(ctx, t) && !ctx.Top? && !IsRed(t)
    requires Sibling(ctx).Bin? && !IsRed(Sibling(ctx)) && OuterNephewRed(ctx)
    ensures Balanced(Settled(ctx, t)) && Fits(ctx.up, BlackHeight(Settled(ctx, t)))
    ensures IsRed(Settled(ctx, t)) <==> ctx.color == Red
  {
    var w := Sibling(ctx);
    var p := if ctx.InLeft? then Settled(ctx, t).left else Settled(ctx, t).right;
    assert Balanced(w.left) && Balanced(w.right) && BlackHeight(w.left) == BlackHeight(w.right) == BlackHeight(t);
    assert Balanced(p) && BlackHeight(p) == BlackHeight(t) + 1;
  }

  /** Where the loop stops, blackening the subtree at the hole restores every rule. */
  lemma EraseEnd<N>(ctx: Ctx<N>, t: Tree<N>)
    requires EraseInv(ctx, t) && (ctx.Top? || IsRed(t))
    ensures RedBlack(Plug(ctx, Painted(t, Black)))
    ensures SameKeys(ctx, t, ctx, Painted(t, Black))
  {
    PaintedKeys(t, Black);
    SameKeysBelow(ctx, t, Painted(t, Black));
    PlugBalanced(ctx, Painted(t, Black));
    if !ctx.Top? { PlugColor(ctx, Painted(t, Black)); }
  }

  // ----- Unlinking a node -----

  /** The place of the least node of `t`, below the context `ctx`. */
  ghost function LeastCtx<N>(ctx: Ctx<N>, t: Tree<N>): Ctx<N>
    requires t.Bin?
    decreases t
  {
    if t.left.Leaf? then ctx else LeastCtx(InLeft(t.node, t.color, t.key, t.right, ctx), t.left)
  }

  ghost function Least<N>(t: Tree<N>): Tree<N>
    requires t.Bin?
    ensures Least(t).Bin? && Least(t).left.Leaf?
  {
    if t.left.Leaf? then t else Least(t.left)
  }

  lemma {:induction false} LeastPlug<N>(ctx: Ctx<N>, t: Tree<N>)
    requires t.Bin?
    ensures Plug(LeastCtx(ctx, t), Least(t)) == Plug(ctx, t)
    decreases t
  {
    if t.left.Bin? {
      LeastPlug(InLeft(t.node, t.color, t.key, t.right, ctx), t.left);
    }
  }

  /** A node with at most one child: what replaces it is that child. */
  lemma SpliceKeys<N>(ctx: Ctx<N>, t: Tree<N>, s: Tree<N>)
    requires t.Bin?
    requires (t.left.Leaf? && s == t.right) || (t.right.Leaf? && s == t.left)
    ensures Keys(Plug(ctx, s)) == (Before(ctx) + Keys(t.left)) + (Keys(t.right) + After(ctx))
  {
    PlugKeys(ctx, s);
    Spread(Before(ctx), Keys(t.left), [], Keys(t.right), After(ctx));
    assert Keys(s) == Keys(t.left) + Keys(t.right);
  }

  /** What the place of a node with at most one child demands of the child. */
  lemma SplicePlace<N>(ctx: Ctx<N>, t: Tree<N>, s: Tree<N>)
    requires t.Bin? && Balanced(t) && Fits(ctx, BlackHeight(t)) && !(IsRed(t) && HeadRed(ctx))
    requires (t.left.Leaf? && s == t.right) || (t.right.Leaf? && s == t.left)
    ensures Balanced(s) && Fits(ctx, BlackHeight(s) + Weight(t.color))
    ensures t.color == Red ==> !IsRed(s) && !HeadRed(ctx)
  {
  }

  lemma SpliceColors<N>(ctx: Ctx<N>, t: Tree<N>, s: Tree<N>)
    requires t.Bin? && RedBlack(Plug(ctx, t))
    requires (t.left.Leaf? && s == t.right) || (t.right.Leaf? && s == t.left)
    ensures t.color == Black ==> EraseInv(ctx, s)
    ensures t.color == Red ==> RedBlack(Plug(ctx, s))
  {
    hide Plug;
    PlugRedBlack(ctx, t);
    PlugRedBlack(ctx, s);
    SplicePlace(ctx, t, s);
  }

  /** What is left of a subtree once its least node is taken out. */
  ghost function WithoutLeast<N>(t: Tree<N>): Tree<N>
    requires t.Bin?
  {
    if t.left.Leaf? then t.right else Bin(t.node, t.color, t.key, WithoutLeast(t.left), t.right)
  }

  lemma {:induction false} LeastKeys<N>(t: Tree<N>)
    requires t.Bin?
    ensures Keys(t) == [Least(t).key] + Keys(WithoutLeast(t))
  {
    if t.left.Bin? {
      LeastKeys(t.left);
      assert ([Least(t).key] + Keys(WithoutLeast(t.left))) + [t.key] + Keys(t.right)
          == [Least(t).key] + (Keys(WithoutLeast(t.left)) + [t.key] + Keys(t.right));
    }
  }

  lemma {:induction false} WithoutLeastPlug<N>(ctx: Ctx<N>, t: Tree<N>)
    requires t.Bin?
    ensures Plug(LeastCtx(ctx, t), Least(t).right) == Plug(ctx, WithoutLeast(t))
    decreases t
  {
    if t.left.Bin? {
      WithoutLeastPlug(InLeft(t.node, t.color, t.key, t.right, ctx), t.left);
    }
  }

  lemma {:induction false} LeastHead<N>(ctx: Ctx<N>, ctx': Ctx<N>, t: Tree<N>)
    requires t.Bin? && t.left.Bin?
    ensures !LeastCtx(ctx, t).Top? && !LeastCtx(ctx', t).Top? && LeastCtx(ctx, t).node == LeastCtx(ctx', t).node
    decreases t
  {
    if t.left.left.Bin? {
      LeastHead(InLeft(t.node, t.color, t.key, t.right, ctx), InLeft(t.node, t.color, t.key, t.right, ctx'), t.left);
    }
  }

  /** Equal up to the node and key that sit at one place above the hole: colours do not differ. */
  ghost predicate Alike<N>(ctx: Ctx<N>, ctx': Ctx<N>) {
    match (ctx, ctx')
    case (Top, Top) => true
    case (InLeft(_, c, _, s, up), InLeft(_, c', _, s', up')) => c == c' && s == s' && Alike(up, up')
    case (InRight(_, c, _, s, up), InRight(_, c', _, s', up')) => c == c' && s == s' && Alike(up, up')
    case _ => false
  }

  lemma {:induction false} AlikeSame<N>(ctx: Ctx<N>)
    ensures Alike(ctx, ctx)
  {
    if !ctx.Top? { AlikeSame(ctx.up); }
  }

  lemma {:induction false} AlikeColors<N>(ctx: Ctx<N>, ctx': Ctx<N>, h: nat)
    requires Alike(ctx, ctx')
    ensures Fits(ctx, h) <==> Fits(ctx', h)
    ensures HeadRed(ctx) <==> HeadRed(ctx')
    ensures ctx.Top? <==> ctx'.Top?
    ensures !ctx.Top? ==> TopColor(ctx) == TopColor(ctx')
  {
    if !ctx.Top? { AlikeColors(ctx.up, ctx'.up, h + Weight(ctx.color)); }
  }

  lemma {:induction false} AlikeLeast<N>(ctx: Ctx<N>, ctx': Ctx<N>, t: Tree<N>)
    requires t.Bin? && Alike(ctx, ctx')
    ensures Alike(LeastCtx(ctx, t), LeastCtx(ctx', t))
    decreases t
  {
    if t.left.Bin? {
      AlikeLeast(InLeft(t.node, t.color, t.key, t.right, ctx), InLeft(t.node, t.color, t.key, t.right, ctx'), t.left);
    }
  }

  /** The successor `y` replaces the erased node, takes its colour, and leaves a gap where it was. */
  lemma SuccessorColors<N>(ctx: Ctx<N>, t: Tree<N>, y: N, key: int)
    requires t.Bin? && t.right.Bin? && RedBlack(Plug(ctx, t))
    ensures var ctx', s := LeastCtx(InRight(y, t.color, key, t.left, ctx), t.right), Least(t.right);
      && (s.color == Black ==> EraseInv(ctx', s.right))
      && (s.color == Red ==> RedBlack(Plug(ctx', s.right)))
  {
    var c0 := InRight(t.node, t.color, t.key, t.left, ctx);
    var c1 := LeastCtx(c0, t.right);
    var ctx', s := LeastCtx(InRight(y, t.color, key, t.left, ctx), t.right), Least(t.right);
    LeastPlug(c0, t.right);
    SpliceColors(c1, s, s.right);
    AlikeSame(ctx);
    AlikeLeast(c0, InRight(y, t.color, key, t.left, ctx), t.right);
    AlikeColors(c1, ctx', BlackHeight(s.right) + 1);
    AlikeColors(c1, ctx', BlackHeight(s.right));
    PlugBalanced(c1, s.right);
    PlugBalanced(ctx', s.right);
    if !ctx'.Top? { PlugColor(c1, s.right); PlugColor(ctx', s.right); }
  }

  lemma SuccessorKeys<N>(ctx: Ctx<N>, t: Tree<N>, y: N)
    requires t.Bin? && t.right.Bin?
    ensures Keys(Plug(LeastCtx(InRight(y, t.color, Least(t.right).key, t.left, ctx), t.right), Least(t.right).right))
         == (Before(ctx) + Keys(t.left)) + (Keys(t.right) + After(ctx))
  {
    var k := Least(t.right).key;
    var c := InRight(y, t.color, k, t.left, ctx);
    WithoutLeastPlug(c, t.right);
    PlugKeysAt(ctx, Up(c, WithoutLeast(t.right)));
    LeastKeys(t.right);
    Shift(Before(ctx) + Keys(t.left), [k], Keys(WithoutLeast(t.right)), After(ctx));
  }

  lemma Shift(p: seq<int>, k: seq<int>, w: seq<int>, q: seq<int>)
    ensures p + k + (w + q) == p + ((k + w) + q)
  {
  }
}
