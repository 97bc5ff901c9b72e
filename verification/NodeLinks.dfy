/** Tree nodes with parent links, and what the pointer assignments of the ordered map make of them.

    The links of all live nodes are recorded as a value, so that a rotation or a transplant is a
    function on it, assignment by assignment. `View` says that the links are exactly the tree seen
    from one of its places; the lemmas carry it through every assignment sequence of the map. */
module NodeLinks {
  import opened RedBlackTree
  import opened RedBlackRepair

  class Node<V> {
    const key: int
    var value: V
    var left: Node?<V>
    var right: Node?<V>
    var parent: Node?<V>
    var color: Color

    constructor (key: int, value: V, parent: Node?<V>)
      ensures this.key == key && this.value == value && this.parent == parent
      ensures left == null && right == null && color == Red
    {
      this.key, this.value, this.parent := key, value, parent;
      left, right := null, null;
      color := Red;
    }
  }

  datatype Link<V> = Link(left: Node?<V>, right: Node?<V>, parent: Node?<V>, color: Color)

  type Shape<V> = Tree<Node<V>>
  type Place<V> = Ctx<Node<V>>
  type Links<V> = map<Node<V>, Link<V>>

  ghost function Root<V>(t: Shape<V>): Node?<V> {
    if t.Leaf? then null else t.node
  }

  ghost function Head<V>(ctx: Place<V>): Node?<V> {
    if ctx.Top? then null else ctx.node
  }

  ghost function First<V>(ctx: Place<V>, n: Node?<V>): Node?<V> {
    if ctx.Top? then n else First(ctx.up, ctx.node)
  }

  /** The links form exactly the tree `t` below `p`: every child link, parent link and colour. */
  ghost predicate Formed<V>(t: Shape<V>, p: Node?<V>, m: Links<V>) {
    match t
    case Leaf => true
    case Bin(n, c, k, l, r) =>
      && n in m && m[n] == Link(Root(l), Root(r), p, c) && n.key == k
      && n !in Nodes(l) && n !in Nodes(r) && Nodes(l) !! Nodes(r)
      && Formed(l, n, m) && Formed(r, n, m)
  }

  /** The links form exactly the context `ctx`, and the link at its hole leads to `hole`. */
  ghost predicate Surrounds<V>(ctx: Place<V>, hole: Node?<V>, m: Links<V>) {
    match ctx
    case Top => true
    case InLeft(n, c, k, s, up) =>
      && n in m && m[n] == Link(hole, Root(s), Head(up), c) && n.key == k
      && n !in Nodes(s) && n !in CtxNodes(up) && Nodes(s) !! CtxNodes(up)
      && Formed(s, n, m) && Surrounds(up, n, m)
    case InRight(n, c, k, s, up) =>
      && n in m && m[n] == Link(Root(s), hole, Head(up), c) && n.key == k
      && n !in Nodes(s) && n !in CtxNodes(up) && Nodes(s) !! CtxNodes(up)
      && Formed(s, n, m) && Surrounds(up, n, m)
  }

  /** The whole tree, seen from the subtree `t` at the hole of `ctx`; no other node is linked. */
  ghost predicate View<V>(ctx: Place<V>, t: Shape<V>, m: Links<V>, root: Node?<V>) {
    && Formed(t, Head(ctx), m) && Surrounds(ctx, Root(t), m) && CtxNodes(ctx) !! Nodes(t)
    && m.Keys == CtxNodes(ctx) + Nodes(t) && root == First(ctx, Root(t))
  }

  lemma ViewUp<V>(ctx: Place<V>, t: Shape<V>, m: Links<V>, root: Node?<V>)
    requires !ctx.Top?
    ensures View(ctx, t, m, root) <==> View(ctx.up, Up(ctx, t), m, root)
  {
  }

  lemma {:induction false} ViewWhole<V>(ctx: Place<V>, t: Shape<V>, m: Links<V>, root: Node?<V>)
    ensures View(ctx, t, m, root) <==> View(Top, Plug(ctx, t), m, root)
    decreases ctx
  {
    if !ctx.Top? {
      ViewUp(ctx, t, m, root);
      ViewWhole(ctx.up, Up(ctx, t), m, root);
    }
  }

  // ----- What a program reads at a place -----

  lemma {:induction false} FirstIsAbove<V>(ctx: Place<V>, n: Node?<V>)
    requires !ctx.Top?
    ensures First(ctx, n) in CtxNodes(ctx)
    decreases ctx
  {
    if !ctx.up.Top? { FirstIsAbove(ctx.up, ctx.node); }
  }

  lemma AtNode<V>(ctx: Place<V>, t: Shape<V>, m: Links<V>, root: Node?<V>)
    requires View(ctx, t, m, root)
    ensures Root(t) == root <==> ctx.Top?
    ensures t.Bin? ==> t.node in m && t.node.key == t.key
                       && m[t.node] == Link(Root(t.left), Root(t.right), Head(ctx), t.color)
    ensures t.Bin? && t.left.Bin? ==> t.left.node in m && m[t.left.node].color == t.left.color && m[t.left.node].parent == t.node
    ensures t.Bin? && t.right.Bin? ==> t.right.node in m && m[t.right.node].color == t.right.color && m[t.right.node].parent == t.node
  {
    if !ctx.Top? { FirstIsAbove(ctx, Root(t)); }
    if t.Bin? { assert Formed(t.left, t.node, m) && Formed(t.right, t.node, m); }
  }

  lemma AtParent<V>(ctx: Place<V>, t: Shape<V>, m: Links<V>, root: Node?<V>)
    requires View(ctx, t, m, root) && !ctx.Top?
    ensures ctx.node in m && m[ctx.node].parent == Head(ctx.up) && m[ctx.node].color == ctx.color
    ensures ctx.InLeft? ==> m[ctx.node].left == Root(t) && m[ctx.node].right == Root(ctx.right)
    ensures ctx.InRight? ==> m[ctx.node].right == Root(t) && m[ctx.node].left == Root(ctx.left)
    ensures Sibling(ctx).Bin? ==> Root(t) != Sibling(ctx).node
    ensures var w := Sibling(ctx);
            w.Bin? ==> w.node in m && m[w.node] == Link(Root(w.left), Root(w.right), ctx.node, w.color)
  {
  }

  // ----- Frames -----

  ghost predicate Agree<V>(s: set<Node<V>>, m: Links<V>, m': Links<V>) {
    forall n :: n in s ==> n in m && n in m' && m[n] == m'[n]
  }

  lemma {:induction false} FormedElsewhere<V>(t: Shape<V>, p: Node?<V>, m: Links<V>, m': Links<V>)
    requires Formed(t, p, m) && Agree(Nodes(t), m, m')
    ensures Formed(t, p, m')
  {
    if t.Bin? {
      FormedElsewhere(t.left, t.node, m, m');
      FormedElsewhere(t.right, t.node, m, m');
    }
  }

  /** Only the parent link and the colour of the topmost node differ. */
  lemma FormedRehung<V>(t: Shape<V>, p: Node?<V>, p': Node?<V>, c: Color, m: Links<V>, m': Links<V>)
    requires Formed(t, p, m)
    requires t.Bin? ==> t.node in m' && m'[t.node] == m[t.node].(parent := p', color := c)
    requires t.Bin? ==> Agree(Nodes(t) - {t.node}, m, m')
    ensures Formed(Painted(t, c), p', m')
  {
    if t.Bin? {
      FormedElsewhere(t.left, t.node, m, m');
      FormedElsewhere(t.right, t.node, m, m');
    }
  }

  lemma FormedReparented<V>(t: Shape<V>, p: Node?<V>, p': Node?<V>, m: Links<V>, m': Links<V>)
    requires Formed(t, p, m)
    requires t.Bin? ==> t.node in m' && m'[t.node] == m[t.node].(parent := p')
    requires t.Bin? ==> Agree(Nodes(t) - {t.node}, m, m')
    ensures Formed(t, p', m')
  {
    if t.Bin? { FormedRehung(t, p, p', t.color, m, m'); }
  }

  lemma {:induction false} SurroundsElsewhere<V>(ctx: Place<V>, hole: Node?<V>, m: Links<V>, m': Links<V>)
    requires Surrounds(ctx, hole, m) && Agree(CtxNodes(ctx), m, m')
    ensures Surrounds(ctx, hole, m')
  {
    match ctx
    case Top =>
    case InLeft(n, _, _, s, up) => FormedElsewhere(s, n, m, m'); SurroundsElsewhere(up, n, m, m');
    case InRight(n, _, _, s, up) => FormedElsewhere(s, n, m, m'); SurroundsElsewhere(up, n, m, m');
  }

  /** What redirecting the link at the hole makes of the node above it. */
  ghost function Redirected<V>(ctx: Place<V>, l: Link<V>, hole: Node?<V>): Link<V> {
    if ctx.InLeft? then l.(left := hole) else l.(right := hole)
  }

  lemma SurroundsRedirected<V>(ctx: Place<V>, hole: Node?<V>, hole': Node?<V>, m: Links<V>, m': Links<V>)
    requires Surrounds(ctx, hole, m)
    requires !ctx.Top? ==> ctx.node in m && ctx.node in m' && m'[ctx.node] == Redirected(ctx, m[ctx.node], hole')
    requires !ctx.Top? ==> Agree(CtxNodes(ctx) - {ctx.node}, m, m')
    ensures Surrounds(ctx, hole', m')
  {
    match ctx
    case Top =>
    case InLeft(n, _, _, s, up) => FormedElsewhere(s, n, m, m'); SurroundsElsewhere(up, n, m, m');
    case InRight(n, _, _, s, up) => FormedElsewhere(s, n, m, m'); SurroundsElsewhere(up, n, m, m');
  }

  lemma {:induction false} FirstRedirected<V>(ctx: Place<V>, n: Node?<V>, n': Node?<V>)
    ensures !ctx.Top? ==> First(ctx, n) == First(ctx, n')
  {
  }

  // ----- Colouring -----

  ghost function Colored<V>(n: Node<V>, c: Color, m: Links<V>): Links<V>
    requires n in m
  {
    m[n := m[n].(color := c)]
  }

  lemma ViewColored<V>(ctx: Place<V>, t: Shape<V>, c: Color, m: Links<V>, root: Node?<V>)
    requires t.Bin? && View(ctx, t, m, root)
    ensures t.node in m && View(ctx, Painted(t, c), Colored(t.node, c, m), root)
  {
    var m' := Colored(t.node, c, m);
    FormedRehung(t, Head(ctx), Head(ctx), c, m, m');
    SurroundsElsewhere(ctx, t.node, m, m');
  }

  // ----- Rotations -----

  /** A link that is null or leads to a linked node. */
  ghost predicate Within<V>(n: Node?<V>, m: Links<V>) { n == null || n in m }

  ghost predicate CanTurn<V>(x: Node<V>, y: Node?<V>, b: Node?<V>, m: Links<V>) {
    && x in m && y != null && y in m && x != y
    && var p := m[x].parent;
    && Within(p, m) && p != x && p != y
    && Within(b, m) && b != x && b != y && (b != null ==> b != p)
  }

  ghost predicate CanTurnLeft<V>(x: Node<V>, m: Links<V>) {
    x in m && m[x].right != null && m[x].right in m && CanTurn(x, m[x].right, m[m[x].right].left, m)
  }

  ghost predicate CanTurnRight<V>(x: Node<V>, m: Links<V>) {
    x in m && m[x].left != null && m[x].left in m && CanTurn(x, m[x].left, m[m[x].left].right, m)
  }

  /** The assignments of a left rotation, one after the other, on the links. */
  ghost function TurnedLeft<V>(x: Node<V>, m: Links<V>): (r: Links<V>)
    requires CanTurnLeft(x, m)
    ensures r.Keys == m.Keys
  {
    var y, p := m[x].right, m[x].parent;
    var b := m[y].left;
    var m1 := m[x := m[x].(right := b)];
    var m2 := if b == null then m1 else m1[b := m1[b].(parent := x)];
    var m3 := m2[y := m2[y].(parent := p)];
    var m4 := if p == null then m3
              else if m3[p].left == x then m3[p := m3[p].(left := y)]
              else m3[p := m3[p].(right := y)];
    var m5 := m4[y := m4[y].(left := x)];
    m5[x := m5[x].(parent := y)]
  }

  ghost function TurnedRight<V>(x: Node<V>, m: Links<V>): (r: Links<V>)
    requires CanTurnRight(x, m)
    ensures r.Keys == m.Keys
  {
    var y, p := m[x].left, m[x].parent;
    var b := m[y].right;
    var m1 := m[x := m[x].(left := b)];
    var m2 := if b == null then m1 else m1[b := m1[b].(parent := x)];
    var m3 := m2[y := m2[y].(parent := p)];
    var m4 := if p == null then m3
              else if m3[p].right == x then m3[p := m3[p].(right := y)]
              else m3[p := m3[p].(left := y)];
    var m5 := m4[y := m4[y].(right := x)];
    m5[x := m5[x].(parent := y)]
  }

  /** What a rotation leaves at the nodes it touches: `x` below `y`, `b` below `x`, `y` where `x` was. */
  ghost predicate Turn<V>(x: Node<V>, lx: Link<V>, y: Node<V>, ly: Link<V>, b: Node?<V>, m: Links<V>, m': Links<V>)
    requires x in m
  {
    && m'.Keys == m.Keys && x in m' && y in m'
    && m'[x] == lx.(parent := y) && m'[y] == ly.(parent := m[x].parent)
    && (b != null ==> b in m && b in m' && m'[b] == m[b].(parent := x))
    && var p := m[x].parent;
    && (p != null ==> p in m && p in m' && m'[p] == if m[p].left == x then m[p].(left := y) else m[p].(right := y))
    && forall n :: n in m && n != x && n != y && n != b && n != p ==> m'[n] == m[n]
  }

  lemma TurnedLeftLinks<V>(x: Node<V>, m: Links<V>)
    requires CanTurnLeft(x, m)
    ensures var y := m[x].right;
            Turn(x, m[x].(right := m[y].left), y, m[y].(left := x), m[y].left, m, TurnedLeft(x, m))
  {
  }

  /** As `TurnedLeftLinks`; the code tests for the right link first, which makes no difference
      unless both links of the node above lead to `x`. */
  lemma TurnedRightLinks<V>(x: Node<V>, m: Links<V>)
    requires CanTurnRight(x, m)
    requires m[x].parent != null ==> (m[m[x].parent].left == x <==> m[m[x].parent].right != x)
    ensures var y := m[x].left;
            Turn(x, m[x].(left := m[y].right), y, m[y].(right := x), m[y].right, m, TurnedRight(x, m))
  {
  }

  lemma FormedTurnedLeft<V>(t: Shape<V>, p: Node?<V>, m: Links<V>, m': Links<V>)
    requires t.Bin? && t.right.Bin? && Formed(t, p, m) && Nodes(t) <= m.Keys && (p != null ==> p !in Nodes(t))
    requires Turn(t.node, m[t.node].(right := Root(t.right.left)), t.right.node,
                  m[t.right.node].(left := t.node), Root(t.right.left), m, m')
    ensures Formed(RotatedLeft(t), p, m')
  {
    var y := t.right;
    assert Formed(y, t.node, m);
    FormedElsewhere(t.left, t.node, m, m');
    FormedReparented(y.left, y.node, t.node, m, m');
    FormedElsewhere(y.right, y.node, m, m');
  }

  lemma FormedTurnedRight<V>(t: Shape<V>, p: Node?<V>, m: Links<V>, m': Links<V>)
    requires t.Bin? && t.left.Bin? && Formed(t, p, m) && Nodes(t) <= m.Keys && (p != null ==> p !in Nodes(t))
    requires Turn(t.node, m[t.node].(left := Root(t.left.right)), t.left.node,
                  m[t.left.node].(right := t.node), Root(t.left.right), m, m')
    ensures Formed(RotatedRight(t), p, m')
  {
    var y := t.left;
    assert Formed(y, t.node, m);
    FormedElsewhere(y.left, y.node, m, m');
    FormedReparented(y.right, y.node, t.node, m, m');
    FormedElsewhere(t.right, t.node, m, m');
  }

  /** The rotated subtree hangs where the old one did. */
  lemma ViewTurned<V>(ctx: Place<V>, t: Shape<V>, t': Shape<V>, m: Links<V>, m': Links<V>, root: Node?<V>)
    requires t.Bin? && t'.Bin? && View(ctx, t, m, root)
    requires Formed(t', Head(ctx), m') && Nodes(t') == Nodes(t) && m'.Keys == m.Keys
    requires !ctx.Top? ==>
      m'[ctx.node] == if m[ctx.node].left == t.node then m[ctx.node].(left := t'.node) else m[ctx.node].(right := t'.node)
    requires forall n :: n in m && n !in Nodes(t) && n != Head(ctx) ==> m'[n] == m[n]
    ensures View(ctx, t', m', if ctx.Top? then t'.node else root)
  {
    if !ctx.Top? { AtParent(ctx, t, m, root); }
    SurroundsRedirected(ctx, t.node, t'.node, m, m');
    FirstRedirected(ctx, t.node, t'.node);
  }

  lemma CanTurnInView<V>(ctx: Place<V>, t: Shape<V>, m: Links<V>, root: Node?<V>)
    requires t.Bin? && View(ctx, t, m, root)
    ensures t.right.Bin? ==> CanTurnLeft(t.node, m) && m[t.node].right == t.right.node && m[t.right.node].left == Root(t.right.left)
    ensures t.left.Bin? ==> CanTurnRight(t.node, m) && m[t.node].left == t.left.node && m[t.left.node].right == Root(t.left.right)
  {
    assert t.right.Bin? ==> Formed(t.right, t.node, m) && Formed(t.right.left, t.right.node, m);
    assert t.left.Bin? ==> Formed(t.left, t.node, m) && Formed(t.left.right, t.left.node, m);
  }

  lemma TurnedNodes<N>(t: Tree<N>)
    ensures t.Bin? && t.right.Bin? ==> Nodes(RotatedLeft(t)) == Nodes(t)
    ensures t.Bin? && t.left.Bin? ==> Nodes(RotatedRight(t)) == Nodes(t)
  {
  }

  lemma ViewTurnedLeft<V>(ctx: Place<V>, t: Shape<V>, m: Links<V>, root: Node?<V>)
    requires t.Bin? && t.right.Bin? && View(ctx, t, m, root)
    ensures CanTurnLeft(t.node, m)
    ensures View(ctx, RotatedLeft(t), TurnedLeft(t.node, m), if ctx.Top? then t.right.node else root)
  {
    CanTurnInView(ctx, t, m, root);
    TurnedLeftLinks(t.node, m);
    TurnedNodes(t);
    FormedTurnedLeft(t, Head(ctx), m, TurnedLeft(t.node, m));
    ViewTurned(ctx, t, RotatedLeft(t), m, TurnedLeft(t.node, m), root);
  }

  lemma ViewTurnedRight<V>(ctx: Place<V>, t: Shape<V>, m: Links<V>, root: Node?<V>)
    requires t.Bin? && t.left.Bin? && View(ctx, t, m, root)
    ensures CanTurnRight(t.node, m)
    ensures View(ctx, RotatedRight(t), TurnedRight(t.node, m), if ctx.Top? then t.left.node else root)
  {
    CanTurnInView(ctx, t, m, root);
    if !ctx.Top? { AtParent(ctx, t, m, root); }
    TurnedRightLinks(t.node, m);
    TurnedNodes(t);
    FormedTurnedRight(t, Head(ctx), m, TurnedRight(t.node, m));
    ViewTurned(ctx, t, RotatedRight(t), m, TurnedRight(t.node, m), root);
  }

  // ----- Linking a new node -----

  /** The new node is linked under the hole's link, whichever side the comparison chose. */
  ghost function Grown<V>(node: Node<V>, p: Node?<V>, left: bool, m: Links<V>): Links<V>
    requires Within(p, m)
  {
    var m1 := m[node := Link(null, null, p, Red)];
    if p == null then m1
    else if left then m1[p := m1[p].(left := node)]
    else m1[p := m1[p].(right := node)]
  }

  lemma ViewGrown<V>(ctx: Place<V>, node: Node<V>, m: Links<V>, root: Node?<V>)
    requires View(ctx, Leaf, m, root) && node !in m
    ensures Within(Head(ctx), m)
    ensures View(ctx, Bin(node, Red, node.key, Leaf, Leaf), Grown(node, Head(ctx), ctx.InLeft?, m),
                 if ctx.Top? then node else root)
  {
    if !ctx.Top? { AtParent(ctx, Leaf, m, root); }
    SurroundsRedirected(ctx, null, node, m, Grown(node, Head(ctx), ctx.InLeft?, m));
    FirstRedirected(ctx, null, node);
  }

  // ----- Unlinking a node -----

  ghost predicate CanTransplant<V>(u: Node<V>, v: Node?<V>, m: Links<V>) {
    u in m && Within(v, m) && Within(m[u].parent, m)
  }

  /** The assignments of a transplant: the link to `u` and the parent link of `v`. */
  ghost function Transplanted<V>(u: Node<V>, v: Node?<V>, m: Links<V>): (r: Links<V>)
    requires CanTransplant(u, v, m)
    ensures r.Keys == m.Keys
  {
    var p := m[u].parent;
    var m1 := if p == null then m
              else if m[p].left == u then m[p := m[p].(left := v)]
              else m[p := m[p].(right := v)];
    if v == null then m1 else m1[v := m1[v].(parent := m1[u].parent)]
  }

  lemma TransplantedLinks<V>(u: Node<V>, v: Node?<V>, m: Links<V>)
    requires CanTransplant(u, v, m) && v != u && m[u].parent != u && (v != null ==> v != m[u].parent)
    ensures var m', p := Transplanted(u, v, m), m[u].parent;
      && m'.Keys == m.Keys && m'[u] == m[u]
      && (p != null ==> m'[p] == if m[p].left == u then m[p].(left := v) else m[p].(right := v))
      && (v != null ==> m'[v] == m[v].(parent := p))
      && forall n :: n in m && n != v && n != p ==> m'[n] == m[n]
  {
  }

  /** A node with at most one child is replaced by that child; its own links stay as they were. */
  lemma ViewTransplanted<V>(ctx: Place<V>, t: Shape<V>, s: Shape<V>, m: Links<V>, root: Node?<V>)
    requires t.Bin? && View(ctx, t, m, root)
    requires (t.left.Leaf? && s == t.right) || (t.right.Leaf? && s == t.left)
    ensures CanTransplant(t.node, Root(s), m) && Root(s) != t.node
    ensures var m' := Transplanted(t.node, Root(s), m);
            m'.Keys == m.Keys && m'[t.node] == m[t.node]
            && View(ctx, s, m' - {t.node}, if ctx.Top? then Root(s) else root)
  {
    AtNode(ctx, t, m, root);
    if !ctx.Top? { AtParent(ctx, t, m, root); }
    assert Formed(s, t.node, m);
    TransplantedLinks(t.node, Root(s), m);
    var m' := Transplanted(t.node, Root(s), m);
    FormedReparented(s, t.node, Head(ctx), m, m' - {t.node});
    SurroundsRedirected(ctx, t.node, Root(s), m, m' - {t.node});
    FirstRedirected(ctx, t.node, Root(s));
  }

  /** `y` is about to take the place of `z`: it already holds the right subtree `r`. */
  ghost predicate Ready<V>(ctx: Place<V>, z: Node<V>, c: Color, l: Shape<V>, y: Node<V>, r: Shape<V>, m: Links<V>, root: Node?<V>) {
    && z in m && y in m && z != y && l.Bin?
    && m[z].left == l.node && m[z].parent == Head(ctx) && m[z].color == c && m[y].right == Root(r)
    && Formed(l, z, m) && Formed(r, y, m) && Surrounds(ctx, z, m)
    && Nodes(l) !! Nodes(r) && CtxNodes(ctx) !! (Nodes(l) + Nodes(r)) && {z, y} !! (Nodes(l) + Nodes(r) + CtxNodes(ctx))
    && m.Keys == CtxNodes(ctx) + Nodes(l) + Nodes(r) + {z, y} && root == First(ctx, z)
  }

  ghost predicate CanSucceed<V>(z: Node<V>, y: Node<V>, m: Links<V>) {
    CanTransplant(z, y, m) && z != y && m[z].left != null && m[z].left in m
    && m[z].left != z && m[z].left != y && (m[z].parent != null ==> m[z].parent != z && m[z].parent != y)
  }

  /** `transplant(z, y)`, then the left subtree and the colour of `z` go to `y`. */
  ghost function Succeeded<V>(z: Node<V>, y: Node<V>, m: Links<V>): (r: Links<V>)
    requires CanSucceed(z, y, m)
    ensures r.Keys == m.Keys
  {
    var m1 := Transplanted(z, y, m);
    var l := m1[z].left;
    var m2 := m1[y := m1[y].(left := l)];
    var m3 := m2[l := m2[l].(parent := y)];
    m3[y := m3[y].(color := m3[z].color)]
  }

  lemma SucceededLinks<V>(z: Node<V>, y: Node<V>, m: Links<V>)
    requires CanSucceed(z, y, m) && m[z].parent != m[z].left
    ensures var m', l, p := Succeeded(z, y, m), m[z].left, m[z].parent;
      && m'.Keys == m.Keys && m'[y] == Link(l, m[y].right, p, m[z].color)
      && m'[l] == m[l].(parent := y)
      && (p != null ==> m'[p] == if m[p].left == z then m[p].(left := y) else m[p].(right := y))
      && forall n :: n in m && n != y && n != l && n != p ==> m'[n] == m[n]
  {
  }

  lemma FormedSucceeded<V>(ctx: Place<V>, z: Node<V>, c: Color, l: Shape<V>, y: Node<V>, r: Shape<V>, m: Links<V>, root: Node?<V>)
    requires Ready(ctx, z, c, l, y, r, m, root)
    ensures CanSucceed(z, y, m) && m[z].parent != m[z].left
    ensures Formed(Bin(y, c, y.key, l, r), Head(ctx), Succeeded(z, y, m) - {z})
  {
    SucceededLinks(z, y, m);
    var m' := Succeeded(z, y, m) - {z};
    FormedReparented(l, z, y, m, m');
    FormedElsewhere(r, y, m, m');
  }

  lemma ViewSucceeded<V>(ctx: Place<V>, z: Node<V>, c: Color, l: Shape<V>, y: Node<V>, r: Shape<V>, m: Links<V>, root: Node?<V>)
    requires Ready(ctx, z, c, l, y, r, m, root)
    ensures CanSucceed(z, y, m) && (m[z].parent == null <==> ctx.Top?)
    ensures View(ctx, Bin(y, c, y.key, l, r), Succeeded(z, y, m) - {z}, if ctx.Top? then y else root)
  {
    FormedSucceeded(ctx, z, c, l, y, r, m, root);
    SucceededLinks(z, y, m);
    SurroundsRedirected(ctx, z, y, m, Succeeded(z, y, m) - {z});
    FirstRedirected(ctx, z, y);
  }

  /** The successor is the right child itself. */
  lemma ReadyShallow<V>(ctx: Place<V>, t: Shape<V>, m: Links<V>, root: Node?<V>)
    requires t.Bin? && t.left.Bin? && t.right.Bin? && t.right.left.Leaf? && View(ctx, t, m, root)
    ensures Ready(ctx, t.node, t.color, t.left, t.right.node, t.right.right, m, root)
    ensures t.right.right.Bin? ==> t.right.right.node in m && m[t.right.right.node].parent == t.right.node
  {
    AtNode(ctx, t, m, root);
    assert Formed(t.right, t.node, m);
  }

  /** The successor `y` lies deeper: it was transplanted away and takes over the right subtree. */
  lemma ReadyDeep<V>(ctx: Place<V>, t: Shape<V>, y: Node<V>, m: Links<V>, root: Node?<V>)
    requires t.Bin? && t.left.Bin? && t.right.Bin? && y in m && View(ctx, t, m - {y}, root)
    ensures t.node in m && m[t.node].right == t.right.node && t.right.node in m
    ensures var m1 := m[y := m[y].(right := t.right.node)];
            var m2 := m1[t.right.node := m1[t.right.node].(parent := y)];
            Ready(ctx, t.node, t.color, t.left, y, t.right, m2, root)
  {
    AtNode(ctx, t, m - {y}, root);
    var m1 := m[y := m[y].(right := t.right.node)];
    var m2 := m1[t.right.node := m1[t.right.node].(parent := y)];
    FormedElsewhere(t.left, t.node, m - {y}, m2);
    FormedReparented(t.right, t.node, y, m - {y}, m2);
    SurroundsElsewhere(ctx, t.node, m - {y}, m2);
  }
}
