/** The shape of a red-black tree as a value, and the algebra of its repairs.

    A `Tree` records, for every position, which node object sits there, its colour and its key.
    A `Ctx` is a tree with one hole, read from the hole upwards, so that `Plug(ctx, t)` is the whole
    tree seen from a node somewhere inside it. Every repair step of the container is a step on such
    a pair; this module proves what the steps keep. PooledMap.dfy ties the pairs to linked nodes. */
module RedBlackTree {
  import opened MathBits

  datatype Color = Red | Black

  datatype Tree<N> = Leaf | Bin(node: N, color: Color, key: int, left: Tree<N>, right: Tree<N>)

  datatype Ctx<N> =
    | Top
    | InLeft(node: N, color: Color, key: int, right: Tree<N>, up: Ctx<N>)
    | InRight(node: N, color: Color, key: int, left: Tree<N>, up: Ctx<N>)

  // ----- Whole trees, contents and nodes -----

  ghost function Up<N>(ctx: Ctx<N>, t: Tree<N>): Tree<N>
    requires !ctx.Top?
  {
    match ctx
    case InLeft(n, c, k, r, _) => Bin(n, c, k, t, r)
    case InRight(n, c, k, l, _) => Bin(n, c, k, l, t)
  }

  ghost function Plug<N>(ctx: Ctx<N>, t: Tree<N>): Tree<N>
    decreases ctx
  {
    if ctx.Top? then t else Plug(ctx.up, Up(ctx, t))
  }

  ghost function Depth<N>(ctx: Ctx<N>): nat {
    if ctx.Top? then 0 else 1 + Depth(ctx.up)
  }

  ghost function Keys<N>(t: Tree<N>): seq<int> {
    match t
    case Leaf => []
    case Bin(_, _, k, l, r) => Keys(l) + [k] + Keys(r)
  }

  /** The keys to the left of the hole. */
  ghost function Before<N>(ctx: Ctx<N>): seq<int> {
    match ctx
    case Top => []
    case InLeft(_, _, _, _, up) => Before(up)
    case InRight(_, _, k, l, up) => Before(up) + (Keys(l) + [k])
  }

  /** The keys to the right of the hole. */
  ghost function After<N>(ctx: Ctx<N>): seq<int> {
    match ctx
    case Top => []
    case InLeft(_, _, k, r, up) => ([k] + Keys(r)) + After(up)
    case InRight(_, _, _, _, up) => After(up)
  }

  ghost function Nodes<N>(t: Tree<N>): set<N> {
    match t
    case Leaf => {}
    case Bin(n, _, _, l, r) => {n} + Nodes(l) + Nodes(r)
  }

  ghost function CtxNodes<N>(ctx: Ctx<N>): set<N> {
    match ctx
    case Top => {}
    case InLeft(n, _, _, r, up) => {n} + Nodes(r) + CtxNodes(up)
    case InRight(n, _, _, l, up) => {n} + Nodes(l) + CtxNodes(up)
  }

  lemma Regroup(a: seq<int>, b: seq<int>, c: seq<int>, d: seq<int>, e: seq<int>)
    ensures a + (b + c + d) + e == a + b + ((c + d) + e)
    ensures a + (b + c + d) + e == (a + (b + c)) + d + e
  {
  }

  lemma {:induction false} PlugKeys<N>(ctx: Ctx<N>, t: Tree<N>)
    ensures Keys(Plug(ctx, t)) == Before(ctx) + Keys(t) + After(ctx)
    decreases ctx
  {
    if !ctx.Top? {
      PlugKeys(ctx.up, Up(ctx, t));
      match ctx
      case InLeft(_, _, k, r, up) => Regroup(Before(up), Keys(t), [k], Keys(r), After(up));
      case InRight(_, _, k, l, up) => Regroup(Before(up), Keys(l), [k], Keys(t), After(up));
    }
  }

  lemma Spread(p: seq<int>, l: seq<int>, k: seq<int>, r: seq<int>, q: seq<int>)
    ensures p + (l + k + r) + q == (p + l) + k + (r + q)
    ensures p + (l + r) + q == (p + l) + (r + q)
  {
  }

  lemma PlugKeysAt<N>(ctx: Ctx<N>, t: Tree<N>)
    requires t.Bin?
    ensures Keys(Plug(ctx, t)) == (Before(ctx) + Keys(t.left)) + [t.key] + (Keys(t.right) + After(ctx))
  {
    PlugKeys(ctx, t);
    Spread(Before(ctx), Keys(t.left), [t.key], Keys(t.right), After(ctx));
  }

  lemma {:induction false} PlugNodes<N>(ctx: Ctx<N>, t: Tree<N>)
    ensures Nodes(Plug(ctx, t)) == CtxNodes(ctx) + Nodes(t)
    decreases ctx
  {
    if !ctx.Top? {
      PlugNodes(ctx.up, Up(ctx, t));
    }
  }

  // ----- Ordering -----

  ghost predicate Sorted(s: seq<int>) {
    forall i, j :: 0 <= i < j < |s| ==> s[i] < s[j]
  }

  /** Every key outside the subtree at the hole lies on the same side of `key` as of the hole. */
  ghost predicate Encloses<N>(ctx: Ctx<N>, key: int) {
    (forall x :: x in Before(ctx) ==> x < key) && (forall x :: x in After(ctx) ==> key < x)
  }

  lemma SortedSplit(a: seq<int>, k: int, b: seq<int>)
    requires Sorted(a + [k] + b)
    ensures Sorted(a) && Sorted(b) && Sorted(a + b)
    ensures forall x :: x in a ==> x < k
    ensures forall x :: x in b ==> k < x
  {
    var s := a + [k] + b;
    assert forall i :: 0 <= i < |a| ==> s[i] == a[i];
    assert s[|a|] == k;
    assert forall i :: 0 <= i < |b| ==> s[|a| + 1 + i] == b[i];
    forall i, j | 0 <= i < j < |a + b|
      ensures (a + b)[i] < (a + b)[j]
    {
      var i' := if i < |a| then i else i + 1;
      var j' := if j < |a| then j else j + 1;
      assert (a + b)[i] == s[i'] && (a + b)[j] == s[j'];
    }
    assert forall i :: 0 <= i < |b| ==> (a + b)[|a| + i] == b[i];
  }

  lemma SortedJoin(a: seq<int>, k: int, b: seq<int>)
    requires Sorted(a + b)
    requires forall x :: x in a ==> x < k
    requires forall x :: x in b ==> k < x
    ensures Sorted(a + [k] + b)
  {
    var s := a + [k] + b;
    assert forall i :: 0 <= i < |a| ==> s[i] == (a + b)[i] && s[i] in a;
    assert forall i :: |a| < i < |s| ==> s[i] == (a + b)[i - 1] && s[i] in b;
  }

  /** Where a search stands: the key sought is in the whole tree exactly if it is in the subtree. */
  lemma SearchStep<N>(ctx: Ctx<N>, t: Tree<N>, key: int)
    requires t.Bin? && key != t.key
    requires Sorted(Keys(Plug(ctx, t))) && Encloses(ctx, key)
    ensures key < t.key ==> Encloses(InLeft(t.node, t.color, t.key, t.right, ctx), key)
    ensures t.key < key ==> Encloses(InRight(t.node, t.color, t.key, t.left, ctx), key)
  {
    PlugKeysAt(ctx, t);
    SortedSplit(Before(ctx) + Keys(t.left), t.key, Keys(t.right) + After(ctx));
    assert forall x :: x in Keys(t.left) ==> x in Before(ctx) + Keys(t.left);
    assert forall x :: x in Keys(t.right) ==> x in Keys(t.right) + After(ctx);
  }

  lemma SearchEnd<N>(ctx: Ctx<N>, key: int)
    requires Encloses(ctx, key)
    ensures key !in Keys(Plug(ctx, Leaf))
  {
    PlugKeys(ctx, Leaf);
  }

  lemma SearchFound<N>(ctx: Ctx<N>, t: Tree<N>)
    requires t.Bin?
    ensures t.key in Keys(Plug(ctx, t)) && t.node in Nodes(Plug(ctx, t))
  {
    PlugKeys(ctx, t);
    PlugNodes(ctx, t);
    assert t.key in Keys(t);
  }

  // ----- Colours and black height -----

  ghost predicate IsRed<N>(t: Tree<N>) { t.Bin? && t.color == Red }

  ghost predicate HeadRed<N>(ctx: Ctx<N>) { !ctx.Top? && ctx.color == Red }

  ghost function Weight(c: Color): nat { if c == Black then 1 else 0 }

  ghost function BlackHeight<N>(t: Tree<N>): nat {
    match t
    case Leaf => 0
    case Bin(_, c, _, l, _) => BlackHeight(l) + Weight(c)
  }

  /** Equal black height on every path, and no red node with a red child. */
  ghost predicate Balanced<N>(t: Tree<N>) {
    match t
    case Leaf => true
    case Bin(_, c, _, l, r) =>
      && Balanced(l) && Balanced(r) && BlackHeight(l) == BlackHeight(r)
      && (c == Red ==> !IsRed(l) && !IsRed(r))
  }

  /** A context that is balanced once a subtree of black height `h` fills the hole. Whether the hole
      may hold a red root is left open: that is the defect the insertion repair moves upwards. */
  ghost predicate Fits<N>(ctx: Ctx<N>, h: nat) {
    match ctx
    case Top => true
    case InLeft(_, c, _, s, up) =>
      && Balanced(s) && BlackHeight(s) == h
      && (c == Red ==> !IsRed(s) && !HeadRed(up))
      && Fits(up, h + Weight(c))
    case InRight(_, c, _, s, up) =>
      && Balanced(s) && BlackHeight(s) == h
      && (c == Red ==> !IsRed(s) && !HeadRed(up))
      && Fits(up, h + Weight(c))
  }

  ghost function TopColor<N>(ctx: Ctx<N>): Color
    requires !ctx.Top?
  {
    if ctx.up.Top? then ctx.color else TopColor(ctx.up)
  }

  ghost function Painted<N>(t: Tree<N>, c: Color): Tree<N> {
    if t.Leaf? then t else t.(color := c)
  }

  /** The invariant of the container between calls. */
  ghost predicate RedBlack<N>(t: Tree<N>) {
    Balanced(t) && !IsRed(t)
  }

  lemma {:induction false} PlugBalanced<N>(ctx: Ctx<N>, t: Tree<N>)
    ensures Balanced(Plug(ctx, t)) <==>
            Balanced(t) && Fits(ctx, BlackHeight(t)) && !(IsRed(t) && HeadRed(ctx))
    decreases ctx
  {
    if !ctx.Top? {
      PlugBalanced(ctx.up, Up(ctx, t));
    }
  }

  lemma {:induction false} PlugColor<N>(ctx: Ctx<N>, t: Tree<N>)
    requires !ctx.Top?
    ensures IsRed(Plug(ctx, t)) <==> TopColor(ctx) == Red
    decreases ctx
  {
    if !ctx.up.Top? {
      PlugColor(ctx.up, Up(ctx, t));
    }
  }

  /** The two lemmas above in one: what the whole tree demands of a place and its subtree. */
  lemma PlugRedBlack<N>(ctx: Ctx<N>, t: Tree<N>)
    ensures RedBlack(Plug(ctx, t)) <==>
            && Balanced(t) && Fits(ctx, BlackHeight(t)) && !(IsRed(t) && HeadRed(ctx))
            && (if ctx.Top? then !IsRed(t) else TopColor(ctx) == Black)
  {
    PlugBalanced(ctx, t);
    if !ctx.Top? { PlugColor(ctx, t); }
  }

  // ----- Height -----

  ghost function Size<N>(t: Tree<N>): nat {
    match t
    case Leaf => 0
    case Bin(_, _, _, l, r) => 1 + Size(l) + Size(r)
  }

  lemma {:induction false} SizeAtLeast<N>(t: Tree<N>)
    requires Balanced(t)
    ensures Pow2(BlackHeight(t)) <= Size(t) + 1
  {
    if t.Bin? {
      SizeAtLeast(t.left);
      SizeAtLeast(t.right);
    }
  }

  lemma {:induction false} SizeIsKeys<N>(t: Tree<N>)
    ensures Size(t) == |Keys(t)|
  {
    if t.Bin? {
      SizeIsKeys(t.left);
      SizeIsKeys(t.right);
    }
  }

  /** Going up from a hole to the root passes at most two nodes for every black one. */
  lemma {:induction false} DepthBound<N>(ctx: Ctx<N>, t: Tree<N>)
    requires Balanced(Plug(ctx, t))
    ensures Depth(ctx) + (if !ctx.Top? && !HeadRed(ctx) then 1 else 0)
         <= 2 * (BlackHeight(Plug(ctx, t)) - BlackHeight(t)) + (if IsRed(Plug(ctx, t)) && !ctx.Top? then 1 else 0)
    decreases ctx
  {
    PlugBalanced(ctx, t);
    if !ctx.Top? {
      DepthBound(ctx.up, Up(ctx, t));
    }
  }

  /** A search that has passed `Depth(ctx)` nodes of a valid tree has taken at most 2 log2(size + 1) steps. */
  lemma SearchLength<N>(ctx: Ctx<N>, t: Tree<N>)
    requires RedBlack(Plug(ctx, t))
    ensures Pow2((Depth(ctx) + 1) / 2) <= |Keys(Plug(ctx, t))| + 1
  {
    DepthBound(ctx, t);
    Pow2Monotone((Depth(ctx) + 1) / 2, BlackHeight(Plug(ctx, t)));
    SizeAtLeast(Plug(ctx, t));
    SizeIsKeys(Plug(ctx, t));
  }
}
