/** Exchanging two entries of the index tree: every link to the one becomes a link to the other. */
module Renaming {
  import opened IndexTree

  ghost function Swap(x: nat, y: nat, i: nat): nat {
    if i == x then y else if i == y then x else i
  }

  ghost function SwapLink(x: nat, y: nat, l: Link): Link {
    Link(Swap(x, y, l.up), Swap(x, y, l.left), Swap(x, y, l.right), l.color)
  }

  ghost function SwapTree(x: nat, y: nat, t: Tree): Tree {
    match t
    case Leaf => Leaf
    case Node(l, i, color, r) => Node(SwapTree(x, y, l), Swap(x, y, i), color, SwapTree(x, y, r))
  }

  ghost function SwapCtx(x: nat, y: nat, c: Ctx): Ctx {
    match c
    case Top => Top
    case InLeft(above, i, color, r) => InLeft(SwapCtx(x, y, above), Swap(x, y, i), color, SwapTree(x, y, r))
    case InRight(above, l, i, color) => InRight(SwapCtx(x, y, above), SwapTree(x, y, l), Swap(x, y, i), color)
  }

  ghost function SwapSeq(x: nat, y: nat, s: seq<nat>): seq<nat> {
    seq(|s|, k requires 0 <= k < |s| => Swap(x, y, s[k]))
  }

  /** On the entries `s`, the arena `m'` is `m` with `x` and `y` exchanged. */
  ghost predicate Exchanged(m: seq<Link>, m': seq<Link>, x: nat, y: nat, s: set<nat>) {
    && |m| == |m'| && 0 < x < |m| && 0 < y < |m|
    && forall i :: i in s && 0 < i < |m| ==> m'[Swap(x, y, i)] == SwapLink(x, y, m[i])
  }

  lemma {:induction false} SwapRep(m: seq<Link>, m': seq<Link>, x: nat, y: nat, t: Tree, id: nat, up: nat)
    requires Rep(m, t, id, up) && Exchanged(m, m', x, y, Ids(t))
    ensures Rep(m', SwapTree(x, y, t), Swap(x, y, id), Swap(x, y, up))
  {
    match t
    case Leaf =>
    case Node(l, i, _, r) =>
      assert i in Ids(t);
      SwapRep(m, m', x, y, l, m[i].left, i);
      SwapRep(m, m', x, y, r, m[i].right, i);
  }

  lemma {:induction false} SwapCtxRep(m: seq<Link>, m': seq<Link>, x: nat, y: nat, c: Ctx, hole: nat)
    requires CtxRep(m, c, hole) && Exchanged(m, m', x, y, CtxIds(c))
    ensures CtxRep(m', SwapCtx(x, y, c), Swap(x, y, hole))
  {
    match c
    case Top =>
    case InLeft(above, i, _, r) =>
      assert i in CtxIds(c);
      SwapRep(m, m', x, y, r, m[i].right, i);
      SwapCtxRep(m, m', x, y, above, i);
    case InRight(above, l, i, _) =>
      assert i in CtxIds(c);
      SwapRep(m, m', x, y, l, m[i].left, i);
      SwapCtxRep(m, m', x, y, above, i);
  }

  lemma {:induction false} SwapTreeShape(x: nat, y: nat, t: Tree)
    ensures BlackHeight(SwapTree(x, y, t)) == BlackHeight(t) && TreeColor(SwapTree(x, y, t)) == TreeColor(t)
    ensures RedBlack(t) ==> RedBlack(SwapTree(x, y, t))
  {
    match t
    case Leaf =>
    case Node(l, _, _, r) =>
      SwapTreeShape(x, y, l);
      SwapTreeShape(x, y, r);
  }

  lemma {:induction false} SwapTreeIds(x: nat, y: nat, t: Tree)
    ensures forall i :: i in Ids(SwapTree(x, y, t)) <==> Swap(x, y, i) in Ids(t)
    ensures Distinct(t) ==> Distinct(SwapTree(x, y, t))
    ensures BlackHeight(SwapTree(x, y, t)) == BlackHeight(t) && TreeColor(SwapTree(x, y, t)) == TreeColor(t)
    ensures RedBlack(t) ==> RedBlack(SwapTree(x, y, t))
  {
    SwapTreeShape(x, y, t);
    match t
    case Leaf =>
    case Node(l, _, _, r) =>
      SwapTreeIds(x, y, l);
      SwapTreeIds(x, y, r);
  }

  lemma {:induction false} SwapCtxIds(x: nat, y: nat, c: Ctx)
    ensures forall i :: i in CtxIds(SwapCtx(x, y, c)) <==> Swap(x, y, i) in CtxIds(c)
    ensures CtxDistinct(c) ==> CtxDistinct(SwapCtx(x, y, c))
    ensures ParentColor(SwapCtx(x, y, c)) == ParentColor(c)
  {
    match c
    case Top =>
    case InLeft(above, _, _, r) =>
      SwapTreeIds(x, y, r);
      SwapCtxIds(x, y, above);
    case InRight(above, l, _, _) =>
      SwapTreeIds(x, y, l);
      SwapCtxIds(x, y, above);
  }

  lemma {:induction false} SwapCtxRedBlack(x: nat, y: nat, c: Ctx, n: nat)
    requires CtxRedBlack(c, n)
    ensures CtxRedBlack(SwapCtx(x, y, c), n)
  {
    SwapCtxIds(x, y, c);
    match c
    case Top =>
    case InLeft(above, _, color, r) =>
      SwapTreeIds(x, y, r);
      SwapCtxIds(x, y, above);
      SwapCtxRedBlack(x, y, above, n + if color.Black? then 1 else 0);
    case InRight(above, l, _, color) =>
      SwapTreeIds(x, y, l);
      SwapCtxIds(x, y, above);
      SwapCtxRedBlack(x, y, above, n + if color.Black? then 1 else 0);
  }

  lemma SwapJoined(x: nat, y: nat, a: seq<nat>, b: seq<nat>)
    ensures SwapSeq(x, y, a + b) == SwapSeq(x, y, a) + SwapSeq(x, y, b)
  {
  }

  lemma SwapInserted(x: nat, y: nat, a: seq<nat>, i: nat, b: seq<nat>)
    ensures SwapSeq(x, y, a + [i] + b) == SwapSeq(x, y, a) + [Swap(x, y, i)] + SwapSeq(x, y, b)
  {
  }

  lemma {:induction false} SwapInorder(x: nat, y: nat, t: Tree)
    ensures Inorder(SwapTree(x, y, t)) == SwapSeq(x, y, Inorder(t))
  {
    match t
    case Leaf =>
    case Node(l, id, _, r) =>
      SwapInorder(x, y, l);
      SwapInorder(x, y, r);
      SwapInserted(x, y, Inorder(l), id, Inorder(r));
  }

  lemma {:induction false} SwapAround(x: nat, y: nat, c: Ctx)
    ensures Before(SwapCtx(x, y, c)) == SwapSeq(x, y, Before(c))
    ensures After(SwapCtx(x, y, c)) == SwapSeq(x, y, After(c))
  {
    match c
    case Top =>
    case InLeft(above, id, _, r) =>
      SwapInorder(x, y, r);
      SwapAround(x, y, above);
      hide SwapSeq;
      SwapInserted(x, y, [], id, Inorder(r));
      SwapJoined(x, y, [id] + Inorder(r), After(above));
    case InRight(above, l, id, _) =>
      SwapInorder(x, y, l);
      SwapAround(x, y, above);
      hide SwapSeq;
      SwapInserted(x, y, Inorder(l), id, []);
      SwapJoined(x, y, Before(above), Inorder(l) + [id]);
  }

  lemma {:induction false} SwapRoot(x: nat, y: nat, c: Ctx, id: nat)
    ensures RootId(SwapCtx(x, y, c), Swap(x, y, id)) == Swap(x, y, RootId(c, id))
  {
    match c
    case Top =>
    case InLeft(above, i, _, _) => SwapRoot(x, y, above, i);
    case InRight(above, _, i, _) => SwapRoot(x, y, above, i);
  }

  /** The exchange seen at one subtree. */
  lemma SwapAt(m: seq<Link>, m': seq<Link>, x: nat, y: nat, c: Ctx, t: Tree, id: nat)
    requires At(m, c, t, id) && Exchanged(m, m', x, y, Ids(t) + CtxIds(c))
    ensures At(m', SwapCtx(x, y, c), SwapTree(x, y, t), Swap(x, y, id))
  {
    SwapCtxRep(m, m', x, y, c, id);
    SwapRep(m, m', x, y, t, id, ParentId(c));
    SwapCtxIds(x, y, c);
    SwapTreeIds(x, y, t);
    assert c.Top? || ParentId(SwapCtx(x, y, c)) == Swap(x, y, ParentId(c));
  }

  // ---------------------------------------------------------------- links entry by entry

  /** The links of the entry `i` of a tree on the entries `s`, rooted at `root`, and those of its
      neighbours answer each other. */
  ghost predicate Linked(m: seq<Link>, s: set<nat>, root: nat, up: nat, i: nat) {
    && 0 < i < |m|
    && (m[i].left != 0 ==> m[i].left in s && m[i].left < |m| && m[m[i].left].up == i && m[i].left != m[i].right)
    && (m[i].right != 0 ==> m[i].right in s && m[i].right < |m| && m[m[i].right].up == i)
    && (if i == root then m[i].up == up else
        m[i].up in s && 0 < m[i].up < |m| && (m[m[i].up].left == i || m[m[i].up].right == i))
    && i !in {m[i].left, m[i].right, m[i].up}
    && (m[i].up != 0 ==> m[i].up !in {m[i].left, m[i].right})
  }

  lemma {:induction false} RepLinked(m: seq<Link>, t: Tree, id: nat, up: nat)
    requires Rep(m, t, id, up) && Distinct(t) && up !in Ids(t)
    ensures forall i :: i in Ids(t) ==> Linked(m, Ids(t), id, up, i)
  {
    match t
    case Leaf =>
    case Node(l, x, _, r) =>
      RepLinked(m, l, m[x].left, x);
      RepLinked(m, r, m[x].right, x);
      assert l.Node? ==> l.id in Ids(l);
      assert r.Node? ==> r.id in Ids(r);
      RepIds(m, t, id, up);
  }

  /** One entry after `x` has been announced to its neighbours. */
  ghost function Announced(m: seq<Link>, x: nat, isLeft: bool, i: nat): Link
    requires x < |m| && i < |m|
  {
    if i == 0 then m[i]
    else if i == m[x].up then if isLeft then m[i].(left := x) else m[i].(right := x)
    else if i == m[x].left || i == m[x].right then m[i].(up := x)
    else m[i]
  }

  /** `m3` is what is left once `x` and `y` have traded links and both were announced. */
  ghost predicate Traded(m: seq<Link>, m2: seq<Link>, m3: seq<Link>, x: nat, y: nat) {
    && x < |m| && y < |m| && m[x].up < |m| && m[y].up < |m| && |m| == |m2| == |m3|
    && var xIsLeft := m[x].up != 0 && m[m[x].up].left == x;
       var yIsLeft := m[y].up != 0 && m[m[y].up].left == y;
       var m1 := m[x := SwapLink(x, y, m[y])][y := SwapLink(x, y, m[x])];
       && (forall i :: 0 <= i < |m| ==> m2[i] == Announced(m1, x, yIsLeft, i))
       && (forall i :: 0 <= i < |m| ==> m3[i] == Announced(m2, y, xIsLeft, i))
  }

  lemma TradedPair(m: seq<Link>, m2: seq<Link>, m3: seq<Link>, x: nat, y: nat, s: set<nat>, root: nat)
    requires Linked(m, s, root, 0, x) && Linked(m, s, root, 0, y)
    requires x != y && m[y].up != x && Traded(m, m2, m3, x, y)
    ensures m2[x] == SwapLink(x, y, m[y]) && m2[y] == SwapLink(x, y, m[x])
    ensures m3[x] == SwapLink(x, y, m[y]) && m3[y] == SwapLink(x, y, m[x])
  {
  }

  /** `x`, with links `lx`, is a neighbour of `i`, with links `li`, as seen from both. */
  ghost predicate Answer(i: nat, li: Link, x: nat, lx: Link) {
    && (li.left == x || li.right == x <==> lx.up == i)
    && (lx.left == i || lx.right == i <==> li.up == x)
    && (li.left != 0 ==> li.left != li.right)
    && (li.up != 0 ==> li.up !in {li.left, li.right})
    && (lx.up != 0 ==> lx.up !in {lx.left, lx.right})
  }

  lemma LinkedAnswer(m: seq<Link>, s: set<nat>, root: nat, x: nat, i: nat)
    requires Linked(m, s, root, 0, x) && Linked(m, s, root, 0, i) && x != i
    ensures Answer(i, m[i], x, m[x])
  {
  }

  /** One step of announcing a neighbour: the links of `i` once `x` moved to where `y` was. */
  ghost function Told(i: nat, li: Link, ly: Link, y: nat, mi: Link, x: nat): Link {
    if i == ly.up then if mi.left == y then li.(left := x) else li.(right := x)
    else if i == ly.left || i == ly.right then li.(up := x)
    else li
  }

  lemma ToldBoth(i: nat, mi: Link, x: nat, mx: Link, y: nat, my: Link)
    requires 0 < x && 0 < y && 0 < i && i != x && i != y && x != y && my.up != x
    requires Answer(i, mi, x, mx) && Answer(i, mi, y, my)
    ensures Told(i, Told(i, mi, my, y, mi, x), mx, x, mi, y) == SwapLink(x, y, mi)
  {
  }

  lemma ToldFirst(m: seq<Link>, m2: seq<Link>, m3: seq<Link>, x: nat, y: nat, s: set<nat>, root: nat, i: nat)
    requires Linked(m, s, root, 0, x) && Linked(m, s, root, 0, y) && Linked(m, s, root, 0, i)
    requires x != y && m[y].up != x && Traded(m, m2, m3, x, y) && i != x && i != y
    ensures m2[i] == Told(i, m[i], m[y], y, m[i], x)
  {
    var m1 := m[x := SwapLink(x, y, m[y])][y := SwapLink(x, y, m[x])];
    var yIsLeft := m[y].up != 0 && m[m[y].up].left == y;
    assert m2[i] == Announced(m1, x, yIsLeft, i) && m1[i] == m[i] && m1[x] == SwapLink(x, y, m[y]);
  }

  lemma ToldSecond(m: seq<Link>, m2: seq<Link>, m3: seq<Link>, x: nat, y: nat, s: set<nat>, root: nat, i: nat)
    requires Linked(m, s, root, 0, x) && Linked(m, s, root, 0, y) && Linked(m, s, root, 0, i)
    requires x != y && m[y].up != x && Traded(m, m2, m3, x, y) && i != x && i != y
    ensures m3[i] == Told(i, m2[i], m[x], x, m[i], y)
  {
    TradedPair(m, m2, m3, x, y, s, root);
    var xIsLeft := m[x].up != 0 && m[m[x].up].left == x;
    assert m3[i] == Announced(m2, y, xIsLeft, i) && m2[y] == SwapLink(x, y, m[x]);
  }

  /** Trading links and announcing both exchanges the two entries throughout the tree. */
  lemma TradedExchanged(m: seq<Link>, m2: seq<Link>, m3: seq<Link>, x: nat, y: nat, s: set<nat>, root: nat)
    requires forall i :: i in s ==> Linked(m, s, root, 0, i)
    requires x in s && y in s && x != y && 0 < y < |m| && m[y].up != x && Traded(m, m2, m3, x, y)
    ensures Exchanged(m, m3, x, y, s)
  {
    TradedPair(m, m2, m3, x, y, s, root);
    forall i | i in s && 0 < i < |m|
      ensures m3[Swap(x, y, i)] == SwapLink(x, y, m[i])
    {
      if i != x && i != y {
        ToldFirst(m, m2, m3, x, y, s, root, i);
        ToldSecond(m, m2, m3, x, y, s, root, i);
        LinkedAnswer(m, s, root, x, i);
        LinkedAnswer(m, s, root, y, i);
        ToldBoth(i, m[i], x, m[x], y, m[y]);
      }
    }
  }

  lemma TradedOutside(m: seq<Link>, m2: seq<Link>, m3: seq<Link>, x: nat, y: nat, s: set<nat>, root: nat)
    requires Linked(m, s, root, 0, x) && Linked(m, s, root, 0, y) && x in s && y in s
    requires x != y && m[y].up != x && Traded(m, m2, m3, x, y)
    ensures SameOutside(m, m3, s)
  {
    TradedPair(m, m2, m3, x, y, s, root);
    forall i | 0 < i < |m| && i !in s
      ensures m3[i] == m[i]
    {
      assert m2[i] == m[i];
    }
  }

  /** The two entries are different and linked, if at all, as child `x` and parent `y`. */
  ghost predicate Tradable(m: seq<Link>, x: nat, y: nat) {
    && 0 < x < |m| && 0 < y < |m| && x != y && m[y].up != x
    && m[x].up < |m| && m[x].left < |m| && m[x].right < |m|
    && m[y].up < |m| && m[y].left < |m| && m[y].right < |m|
    && x !in {m[x].up, m[x].left, m[x].right} && y !in {m[y].up, m[y].left, m[y].right}
    && y !in {m[x].left, m[x].right}
    && (m[x].up != 0 ==> m[x].up !in {m[x].left, m[x].right})
    && (m[y].up != 0 ==> m[y].up !in {m[y].left, m[y].right})
    && (m[x].up == y <==> x in {m[y].left, m[y].right})
    && (m[x].up == y ==> m[y].left != m[y].right)
  }

  lemma SwapReady(m: seq<Link>, t: Tree, top: nat, x: nat, y: nat)
    requires Rep(m, t, top, 0) && Distinct(t) && x in Ids(t) && y in Ids(t) && x != y && y < |m|
    ensures m[y].up != x ==> Tradable(m, x, y)
    ensures x < |m| && (m[y].up == x ==> m[x].up != y)
  {
    RepIds(m, t, top, 0);
    RepLinked(m, t, top, 0);
    assert Linked(m, Ids(t), top, 0, x) && Linked(m, Ids(t), top, 0, y);
  }

  lemma SwapDone(m: seq<Link>, m2: seq<Link>, m3: seq<Link>, t: Tree, top: nat, x: nat, y: nat)
    requires Rep(m, t, top, 0) && Distinct(t) && x in Ids(t) && y in Ids(t) && x != y
    requires Traded(m, m2, m3, x, y) && m[y].up != x
    ensures Exchanged(m, m3, x, y, Ids(t)) && SameOutside(m, m3, Ids(t))
  {
    RepIds(m, t, top, 0);
    RepLinked(m, t, top, 0);
    TradedExchanged(m, m2, m3, x, y, Ids(t), top);
    TradedOutside(m, m2, m3, x, y, Ids(t), top);
  }
}
