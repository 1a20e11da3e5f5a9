/** What taking one entry out of the index tree does to its surroundings. */
module Removal {
  import opened Chains
  import opened IndexTree
  import opened DoubleBlack
  import opened Renaming

  lemma {:induction false} AroundIds(c: Ctx)
    ensures forall x :: x in Before(c) || x in After(c) ==> x in CtxIds(c)
  {
    match c
    case Top =>
    case InLeft(above, _, _, r) =>
      InorderIds(r);
      AroundIds(above);
    case InRight(above, l, _, _) =>
      InorderIds(l);
      AroundIds(above);
  }

  /** The hole of `c` once its subtree has been cut off. */
  lemma CutAt(m: seq<Link>, m': seq<Link>, c: Ctx, t: Tree)
    requires !c.Top? && t.Node? && At(m, c, t, t.id) && |m| == |m'| && c.id < |m|
    requires forall i :: 0 < i < |m| && i != c.id ==> m'[i] == m[i]
    requires m'[c.id] == if c.InLeft? then m[c.id].(left := 0) else m[c.id].(right := 0)
    ensures At(m', c, Leaf, 0) && RootId(c, 0) == RootId(c, t.id) && c.id in CtxIds(c)
  {
    CtxRehang(m, m', c, t.id, 0);
  }

  lemma SpliceRep(m: seq<Link>, m': seq<Link>, t: Tree, s: Tree, up: nat)
    requires t.Node? && Rep(m, t, t.id, up) && Distinct(t) && |m| == |m'| && s.Node? && (s == t.left || s == t.right)
    requires 0 < s.id < |m| && up !in Ids(t) && forall i :: i in Ids(s) && i != s.id && 0 < i < |m| ==> m'[i] == m[i]
    requires m'[s.id] == m[s.id].(up := up, color := Black)
    ensures Rep(m', s.(color := Black), s.id, up) && Distinct(s.(color := Black)) && Ids(s) <= Ids(t) && s.id in Ids(t)
  {
    hide Inorder, RedBlack;
    RepFrame(m, m', s.left, m[s.id].left, s.id);
    RepFrame(m, m', s.right, m[s.id].right, s.id);
  }

  /** The hole of `c` once its subtree has been replaced by its only child, turned black. */
  lemma SpliceAt(m: seq<Link>, m': seq<Link>, c: Ctx, t: Tree, s: Tree)
    requires !c.Top? && t.Node? && At(m, c, t, t.id) && |m| == |m'| && 0 < c.id < |m|
    requires s.Node? && (s == t.left || s == t.right) && 0 < s.id < |m|
    requires forall i :: 0 < i < |m| && i != c.id && i != s.id ==> m'[i] == m[i]
    requires m'[c.id] == if c.InLeft? then m[c.id].(left := s.id) else m[c.id].(right := s.id)
    requires m'[s.id] == m[s.id].(up := c.id, color := Black)
    ensures At(m', c, s.(color := Black), s.id) && RootId(c, s.id) == RootId(c, t.id)
    ensures c.id in CtxIds(c) && s.id in Ids(t)
  {
    hide Rep, Distinct, CtxDistinct, CtxRep, Inorder, Before, After, RedBlack, CtxRedBlack;
    assert c.id in CtxIds(c) && ParentId(c) == c.id;
    SpliceRep(m, m', t, s, c.id);
    CtxRehang(m, m', c, t.id, s.id);
    assert Ids(s.(color := Black)) == Ids(s);
  }

  lemma SwapSeqNone(x: nat, y: nat, s: seq<nat>)
    requires x !in s && y !in s
    ensures SwapSeq(x, y, s) == s
  {
  }

  /** `whole`, rooted at `top`, is the tree that had `t` in `c`, less the root of `t`. */
  ghost predicate Without(m: seq<Link>, c: Ctx, t: Tree, whole: Tree, top: nat)
    requires t.Node?
  {
    && At(m, Top, whole, top) && whole.Node? && RedBlackRoot(whole)
    && Inorder(whole) == Before(c) + Inorder(t.left) + Inorder(t.right) + After(c)
  }

  lemma PlugNode(c: Ctx, t: Tree)
    requires t.Node? || !c.Top?
    ensures Plug(c, t).Node?
    decreases c
  {
    if !c.Top? { PlugNode(c.above, Up(c, t)); }
  }

  /** The whole tree once the leaf below `c` is gone; `c'` is the repaired context. */
  lemma LeafGone(m: seq<Link>, c: Ctx, c': Ctx, t: Tree) returns (whole: Tree)
    requires t.Node? && t.left.Leaf? && t.right.Leaf? && !c'.Top?
    requires At(m, c', Leaf, 0) && CtxRedBlack(c', 0) && SamePlace(c, c')
    ensures Without(m, c, t, whole, RootId(c', 0))
  {
    hide Ids, CtxIds;
    whole := Plug(c', Leaf);
    AtTop(m, c', Leaf, 0);
    PlugRedBlack(c', Leaf);
    PlugInorder(c', Leaf);
    PlugNode(c', Leaf);
    assert Before(c) + [] + [] + After(c) == Before(c') + [] + After(c');
  }

  /** The whole tree once the only child `s` has taken the place of `t`. */
  lemma Spliced(m: seq<Link>, c: Ctx, t: Tree, s: Tree) returns (whole: Tree)
    requires t.Node? && s.Node? && ((t.left.Leaf? && s == t.right) || (t.right.Leaf? && s == t.left))
    requires At(m, c, s.(color := Black), s.id) && RedBlack(t) && CtxRedBlack(c, BlackHeight(t))
    ensures Without(m, c, t, whole, RootId(c, s.id))
  {
    whole := Plug(c, s.(color := Black));
    AtTop(m, c, s.(color := Black), s.id);
    OnlyChild(t, s);
    PlugRedBlack(c, s.(color := Black));
    PlugInorder(c, s.(color := Black));
    PlugNode(c, s.(color := Black));
    assert Before(c) + Inorder(t.left) + Inorder(t.right) + After(c) == Before(c) + Inorder(s) + After(c);
  }

  /** The only child of a tree node is a red leaf below a black node. */
  lemma OnlyChild(t: Tree, s: Tree)
    requires t.Node? && s.Node? && ((t.left.Leaf? && s == t.right) || (t.right.Leaf? && s == t.left)) && RedBlack(t)
    ensures t.color.Black? && s.color.Red? && RedBlack(s.(color := Black)) && BlackHeight(s.(color := Black)) == BlackHeight(t)
  {
    assert RedBlack(s);
  }

  /** A red leaf's brother is red as well, if there is one. */
  lemma RedLeafBrother(c: Ctx)
    requires !c.Top? && CtxRedBlack(c, 0)
    ensures Sibling(c).Node? ==> Sibling(c).color.Red?
  {
  }

  lemma AtLeaf(m: seq<Link>, c: Ctx, t: Tree)
    requires t.Node? && At(m, c, t, t.id)
    ensures t.left.Leaf? <==> TreeId(t.left) == 0
    ensures t.right.Leaf? <==> TreeId(t.right) == 0
  {
    AtDown(m, c, t);
    RepTreeId(m, t.left, TreeId(t.left), t.id);
    RepTreeId(m, t.right, TreeId(t.right), t.id);
  }

  lemma RemovalStart(m: seq<Link>, c: Ctx, t: Tree)
    requires t.Node? && At(m, c, t, t.id) && RedBlackRoot(Plug(c, t))
    ensures 0 < t.id < |m| && m[t.id].left == TreeId(t.left) && m[t.id].right == TreeId(t.right)
    ensures (t.left.Leaf? <==> TreeId(t.left) == 0) && (t.right.Leaf? <==> TreeId(t.right) == 0)
    ensures m[t.id].up == ParentId(c) && (c.Top? <==> ParentId(c) == 0) && (c.Top? ==> RootId(c, t.id) == t.id)
    ensures RedBlack(t) && CtxRedBlack(c, BlackHeight(t))
    ensures Ids(Plug(c, t)) == CtxIds(c) + Ids(t)
  {
    AtDown(m, c, t);
    AtLeaf(m, c, t);
    SplitRedBlack(c, t);
    PlugIds(c, t);
  }

  /** `s` in `e` is the successor of the root of `t` in `c`. */
  ghost predicate Successor(c: Ctx, t: Tree, e: Ctx, s: Tree) {
    && t.Node? && s.Node? && s.left.Leaf? && s.id in Ids(t.right)
    && Plug(e, s) == Plug(c, t) && Before(e) == Before(c) + Inorder(t.left) + [t.id]
    && RootId(e, s.id) == RootId(c, t.id)
  }

  /** The node furthest to the left. */
  ghost function Leftmost(t: Tree): (s: Tree)
    requires t.Node?
    ensures s.Node?
  {
    if t.left.Leaf? then t else Leftmost(t.left)
  }

  /** Taking out a node that is the index root aborts: it has no child; or just one, and nothing is above it;
      or two, and its successor has none. */
  ghost predicate RootAborts(c: Ctx, t: Tree)
    requires t.Node?
  {
    if t.left.Leaf? && t.right.Leaf? then true
    else if t.left.Leaf? || t.right.Leaf? then c.Top?
    else Leftmost(t.right).right.Leaf?
  }

  lemma SuccessorFacts(m: seq<Link>, c: Ctx, t: Tree, e: Ctx, s: Tree)
    requires At(m, c, t, TreeId(t)) && At(m, e, s, TreeId(s)) && Successor(c, t, e, s)
    ensures Rep(m, Plug(c, t), RootId(c, t.id), 0) && Distinct(Plug(c, t))
    ensures t.id in Ids(Plug(c, t)) && s.id in Ids(Plug(c, t)) && t.id != s.id
    ensures 0 < t.id < |m| && 0 < s.id < |m|
    ensures RootId(c, t.id) != s.id && (!c.Top? ==> RootId(c, t.id) != t.id)
  {
    AtTop(m, c, t, t.id);
    PlugIds(c, t);
    RootInside(c, t.id);
  }

  lemma {:induction false} RootInside(c: Ctx, id: nat)
    ensures if c.Top? then RootId(c, id) == id else RootId(c, id) in CtxIds(c)
  {
    if !c.Top? { RootInside(c.above, c.id); }
  }

  lemma SwappedRedBlack(x: nat, y: nat, e: Ctx, s: Tree)
    requires RedBlackRoot(Plug(e, s))
    ensures RedBlackRoot(Plug(SwapCtx(x, y, e), SwapTree(x, y, s)))
  {
    SplitRedBlack(e, s);
    SwapTreeIds(x, y, s);
    SwapCtxRedBlack(x, y, e, BlackHeight(s));
    SwapCtxIds(x, y, e);
    PlugRedBlack(SwapCtx(x, y, e), SwapTree(x, y, s));
  }

  lemma SwappedIds(x: nat, y: nat, e: Ctx, s: Tree)
    requires x in Ids(Plug(e, s)) && y in Ids(Plug(e, s))
    ensures Ids(Plug(SwapCtx(x, y, e), SwapTree(x, y, s))) == Ids(Plug(e, s))
  {
    PlugIds(e, s);
    SwapTreeIds(x, y, s);
    SwapCtxIds(x, y, e);
    PlugIds(SwapCtx(x, y, e), SwapTree(x, y, s));
    assert forall i :: i in Ids(Plug(e, s)) <==> Swap(x, y, i) in Ids(Plug(e, s));
  }

  lemma SuccessorSwapped(m: seq<Link>, m': seq<Link>, c: Ctx, t: Tree, e: Ctx, s: Tree)
    requires At(m, c, t, TreeId(t)) && At(m, e, s, TreeId(s)) && Successor(c, t, e, s) && RedBlackRoot(Plug(c, t))
    requires Exchanged(m, m', s.id, t.id, Ids(Plug(c, t)))
    ensures
      var e', s' := SwapCtx(s.id, t.id, e), SwapTree(s.id, t.id, s);
      && s'.Node? && s'.id == t.id && s'.left.Leaf?
      && At(m', e', s', t.id) && RedBlackRoot(Plug(e', s'))
      && RootId(e', t.id) == Swap(s.id, t.id, RootId(c, t.id))
      && Ids(Plug(e', s')) == Ids(Plug(c, t))
  {
    SuccessorFacts(m, c, t, e, s);
    PlugIds(e, s);
    SwapAt(m, m', s.id, t.id, e, s, s.id);
    SwappedRedBlack(s.id, t.id, e, s);
    SwappedIds(s.id, t.id, e, s);
    SwapRoot(s.id, t.id, e, s.id);
  }

  /** What is read from the successor on. */
  lemma SuccessorTail(c: Ctx, t: Tree, e: Ctx, s: Tree)
    requires Successor(c, t, e, s)
    ensures [s.id] + (Inorder(s.right) + After(e)) == Inorder(t.right) + After(c)
  {
    var a := Before(c) + Inorder(t.left) + [t.id];
    PlugInorder(c, t);
    PlugInorder(e, s);
    Reassociate(Before(c), Inorder(t.left), [t.id], Inorder(t.right), After(c));
    assert Inorder(s) == [s.id] + Inorder(s.right);
    assert a + ([s.id] + (Inorder(s.right) + After(e))) == a + (Inorder(t.right) + After(c));
    CancelPrefix(a, [s.id] + (Inorder(s.right) + After(e)), Inorder(t.right) + After(c));
  }

  lemma CancelPrefix(a: seq<nat>, b: seq<nat>, b': seq<nat>)
    requires a + b == a + b'
    ensures b == b'
  {
    assert b == (a + b)[|a|..] && b' == (a + b')[|a|..];
  }

  /** Nothing but the two entries themselves is renamed by the swap. */
  lemma SuccessorAround(m: seq<Link>, c: Ctx, t: Tree, e: Ctx, s: Tree)
    requires At(m, c, t, TreeId(t)) && At(m, e, s, TreeId(s)) && Successor(c, t, e, s)
    ensures s.id !in Before(c) + Inorder(t.left) && t.id !in Before(c) + Inorder(t.left)
    ensures s.id !in Inorder(s.right) && t.id !in Inorder(s.right)
    ensures s.id !in After(e) && t.id !in After(e)
  {
    var tail := Inorder(s.right) + After(e);
    AroundIds(c);
    AroundIds(e);
    InorderIds(t.left);
    InorderIds(t.right);
    InorderIds(s.right);
    SuccessorTail(c, t, e, s);
    assert t.id !in Inorder(t.right) && t.id !in After(c);
    assert t.id !in [s.id] + tail;
    assert s.id in Ids(t) && s.id !in Ids(t.left);
  }

  /** Where the removed entry is found after the swap, and what surrounds it. */
  lemma SuccessorPlace(m: seq<Link>, c: Ctx, t: Tree, e: Ctx, s: Tree)
    requires At(m, c, t, TreeId(t)) && At(m, e, s, TreeId(s)) && Successor(c, t, e, s)
    ensures
      var e', s' := SwapCtx(s.id, t.id, e), SwapTree(s.id, t.id, s);
      && s'.Node? && s'.left.Leaf? && Inorder(s'.right) == Inorder(s.right)
      && Before(e') == Before(c) + Inorder(t.left) + [s.id] && After(e') == After(e)
  {
    var x, y, a := s.id, t.id, Before(c) + Inorder(t.left);
    SuccessorAround(m, c, t, e, s);
    SwapAround(x, y, e);
    SwapInorder(x, y, s.right);
    SwapSeqNone(x, y, a);
    SwapSeqNone(x, y, Inorder(s.right));
    SwapSeqNone(x, y, After(e));
    assert SwapSeq(x, y, a + [y]) == SwapSeq(x, y, a) + [x];
  }

  /** Removing the swapped entry removes the original one from the reading of the tree. */
  lemma SuccessorRemoved(m: seq<Link>, c: Ctx, t: Tree, e: Ctx, s: Tree)
    requires At(m, c, t, TreeId(t)) && At(m, e, s, TreeId(s)) && Successor(c, t, e, s)
    ensures
      var e', s' := SwapCtx(s.id, t.id, e), SwapTree(s.id, t.id, s);
      && s'.Node?
      && Before(e') + Inorder(s'.left) + Inorder(s'.right) + After(e')
         == Before(c) + Inorder(t.left) + Inorder(t.right) + After(c)
  {
    SuccessorPlace(m, c, t, e, s);
    SuccessorTail(c, t, e, s);
    Regroup(Before(c) + Inorder(t.left), s.id, Inorder(s.right), After(e), Inorder(t.right), After(c));
  }

  /** Where the node that traded places with its successor is then, it aborts if there is nothing below. */
  lemma SuccessorAborts(m: seq<Link>, c: Ctx, t: Tree, e: Ctx, s: Tree)
    requires At(m, c, t, TreeId(t)) && At(m, e, s, TreeId(s)) && Successor(c, t, e, s) && t.left.Node? && t.right.Node?
    requires s == Leftmost(t.right)
    ensures SwapTree(s.id, t.id, s).Node?
    ensures RootAborts(SwapCtx(s.id, t.id, e), SwapTree(s.id, t.id, s)) <==> RootAborts(c, t)
  {
    SuccessorFacts(m, c, t, e, s);
  }

  /** The index root is the root of the tree. */
  lemma RootWhole(m: seq<Link>, c: Ctx, t: Tree, whole: Tree, top: nat)
    requires t.Node? && At(m, c, t, t.id) && Plug(c, t) == whole && top == RootId(c, t.id)
    ensures t.id == top ==> c == Top && t == whole
  {
    RootInside(c, t.id);
  }

  lemma Regroup(a: seq<nat>, x: nat, b: seq<nat>, d: seq<nat>, b': seq<nat>, d': seq<nat>)
    requires [x] + (b + d) == b' + d'
    ensures a + [x] + [] + b + d == a + b' + d'
  {
    assert a + [x] + [] + b + d == a + ([x] + (b + d));
    assert a + b' + d' == a + (b' + d');
  }

  /** Finds an entry in a tree of the arena. */
  lemma {:induction false} Locate(m: seq<Link>, c0: Ctx, t0: Tree, id: nat) returns (c: Ctx, t: Tree)
    requires t0.Node? && At(m, c0, t0, t0.id) && id in Ids(t0)
    ensures t.Node? && t.id == id && At(m, c, t, id)
    ensures Plug(c, t) == Plug(c0, t0) && RootId(c, id) == RootId(c0, t0.id)
    decreases t0
  {
    if t0.id == id {
      c, t := c0, t0;
    } else {
      AtDown(m, c0, t0);
      if id in Ids(t0.left) {
        c, t := Locate(m, DownLeft(c0, t0), t0.left, id);
      } else {
        c, t := Locate(m, DownRight(c0, t0), t0.right, id);
      }
    }
  }

  lemma WithoutInorder(m: seq<Link>, c: Ctx, t: Tree, whole: Tree, top: nat)
    requires t.Node? && Without(m, c, t, whole, top)
    ensures
      var a, b := Before(c) + Inorder(t.left), Inorder(t.right) + After(c);
      Inorder(Plug(c, t)) == a + [t.id] + b && Inorder(whole) == a + b
  {
    PlugInorder(c, t);
    Reassociate(Before(c), Inorder(t.left), [t.id], Inorder(t.right), After(c));
    assert Inorder(whole) == (Before(c) + Inorder(t.left)) + (Inorder(t.right) + After(c));
  }

  /** Taking one entry out of a sorted tree leaves the others, sorted. */
  lemma WithoutSorted(m: seq<Link>, hash: seq<nat>, c: Ctx, t: Tree, whole: Tree, top: nat)
    requires t.Node? && Without(m, c, t, whole, top)
    requires InRange(hash, Inorder(Plug(c, t))) && Sorted(hash, Inorder(Plug(c, t)))
    ensures InRange(hash, Inorder(whole)) && Sorted(hash, Inorder(whole))
    ensures Ids(whole) == Ids(Plug(c, t)) - {t.id}
  {
    var a, b := Before(c) + Inorder(t.left), Inorder(t.right) + After(c);
    WithoutInorder(m, c, t, whole, top);
    SortedSplit(hash, a, t.id, b);
    SortedJoin(hash, a, b, hash[t.id]);
    InorderIds(whole);
    InorderIds(Plug(c, t));
    assert t.id !in a && t.id !in b;
    assert forall x :: x in Ids(whole) <==> x in Ids(Plug(c, t)) && x != t.id;
  }

  lemma SortedJoin(hash: seq<nat>, a: seq<nat>, b: seq<nat>, h: nat)
    requires InRange(hash, a) && InRange(hash, b) && Sorted(hash, a) && Sorted(hash, b)
    requires AllBelow(hash, a, h) && AllAbove(hash, b, h)
    ensures InRange(hash, a + b) && Sorted(hash, a + b)
  {
  }

  /** The root of the tree has been replaced by an entry with the same hash. */
  lemma RootReplaced(m: seq<Link>, m': seq<Link>, t: Tree, next: nat)
    requires t.Node? && At(m, Top, t, t.id) && next !in Ids(t) && 0 < next < |m| && 0 < t.id < |m|
    requires |m'| == |m| && m'[next] == Link(0, m[t.id].left, m[t.id].right, Black)
    requires forall i :: i in Ids(t) && 0 < i < |m| && i != t.id ==>
      m'[i] == if i == m[t.id].left || i == m[t.id].right then m[i].(up := next) else m[i]
    ensures At(m', Top, Node(t.left, next, Black, t.right), next)
  {
    AtDown(m, Top, t);
    RepIds(m, t, t.id, 0);
    assert (t.left.Node? ==> t.left.id in Ids(t.left)) && (t.right.Node? ==> t.right.id in Ids(t.right));
    Reparented(m, m', t.left, m[t.id].left, t.id, next, m[t.id].right);
    Reparented(m, m', t.right, m[t.id].right, t.id, next, m[t.id].left);
  }

  lemma Reparented(m: seq<Link>, m': seq<Link>, t: Tree, id: nat, up: nat, up': nat, other: nat)
    requires Rep(m, t, id, up) && Distinct(t) && other !in Ids(t)
    requires |m| == |m'|
    requires forall i :: i in Ids(t) && 0 < i < |m| ==> m'[i] == if i == id || i == other then m[i].(up := up') else m[i]
    ensures Rep(m', t, id, up')
  {
    if t.Node? {
      RepFrame(m, m', t.left, m[id].left, id);
      RepFrame(m, m', t.right, m[id].right, id);
    }
  }

  lemma RootReplacedSorted(hash: seq<nat>, t: Tree, next: nat)
    requires t.Node? && InRange(hash, Inorder(t)) && Sorted(hash, Inorder(t)) && RedBlackRoot(t)
    requires next < |hash| && t.id < |hash| && hash[next] == hash[t.id] && Distinct(t)
    ensures
      var t' := Node(t.left, next, Black, t.right);
      && InRange(hash, Inorder(t')) && Sorted(hash, Inorder(t')) && RedBlackRoot(t')
      && Ids(t') == Ids(t) - {t.id} + {next}
  {
    var t' := Node(t.left, next, Black, t.right);
    assert Inorder(t) == Inorder(t.left) + [t.id] + Inorder(t.right);
    SortedSplit(hash, Inorder(t.left), t.id, Inorder(t.right));
    assert InRange(hash, Inorder(t.left) + [next] + Inorder(t.right));
    SortedSplit(hash, Inorder(t.left), next, Inorder(t.right));
  }

  /** The links of `i` after the entry `id` handed its tree place on to `next`. */
  ghost function PromotedLink(m: seq<Link>, id: nat, next: nat, i: nat): Link
    requires id < |m| && i < |m|
  {
    var l := m[id];
    if i == next then m[i].(left := if l.left != 0 then l.left else m[i].left, right := if l.right != 0 then l.right else m[i].right)
    else if i == l.up then if m[i].left == id then m[i].(left := next) else m[i].(right := next)
    else if i == l.left || i == l.right then m[i].(up := next)
    else m[i]
  }

  ghost predicate Promotable(m: seq<Link>, id: nat, next: nat)
    requires id < |m|
  {
    var l := m[id];
    && l.up < |m| && l.left < |m| && l.right < |m| && 0 < next < |m|
    && next !in {id, l.up, l.left, l.right} && (l.up != 0 ==> l.up !in {l.left, l.right})
    && id !in {l.up, l.left, l.right} && (l.left != 0 ==> l.left != l.right)
  }

  /** The links below `root` spell out `tree`, a red-black tree sorted by hash. */
  ghost predicate TreeOk(hash: seq<nat>, node: seq<Link>, root: nat, tree: Tree) {
    && |hash| == |node|
    && tree.Node? && At(node, Top, tree, root) && RedBlackRoot(tree)
    && InRange(hash, Inorder(tree)) && Sorted(hash, Inorder(tree))
  }

  /** `next` heads its chain but hangs nowhere: it is no root and has no link up. */
  ghost predicate Orphaned(node: seq<Link>, cprev: seq<nat>, root: nat, next: nat) {
    next < |node| == |cprev| && 0 < next && next != root && node[next].up == 0 && cprev[next] == 0
  }

  lemma HeadFacts(hash: seq<nat>, node: seq<Link>, cnext: seq<nat>, cprev: seq<nat>, root: nat, tree: Tree,
                  chains: map<nat, seq<nat>>, id: nat)
    requires TreeOk(hash, node, root, tree) && Chained(hash, node, cnext, cprev, Ids(tree), chains)
    requires id in Ids(tree) && id < |cnext| && cnext[id] != 0
    ensures id < |node| && Promotable(node, id, cnext[id]) && 0 < id
    ensures var s := chains[hash[id]]; |s| > 1 && s[0] == id && s[1] == cnext[id]
    ensures cnext[id] !in Ids(tree) && cprev[id] == 0 && node[cnext[id]] == Link(0, 0, 0, Black)
    ensures node[id].up == 0 <==> id == root
    ensures hash[cnext[id]] == hash[id] && root in Ids(tree) && root == tree.id
    ensures node[id].up in Ids(tree) || node[id].up == 0
    ensures node[id].left in Ids(tree) || node[id].left == 0
    ensures node[id].right in Ids(tree) || node[id].right == 0
  {
    var h := hash[id];
    RepIds(node, tree, root, 0);
    RepLinked(node, tree, root, 0);
    assert Linked(node, Ids(tree), root, 0, id);
    ChainEntry(hash, cnext, cprev, h, chains[h], 0);
    ChainEntry(hash, cnext, cprev, h, chains[h], 1);
  }

  lemma StandaloneChain(hash: seq<nat>, node: seq<Link>, cnext: seq<nat>, cprev: seq<nat>, ids: set<nat>,
                        chains: map<nat, seq<nat>>, id: nat)
    requires Chained(hash, node, cnext, cprev, ids, chains) && id in ids && id < |cnext| && cnext[id] == 0
    ensures id < |hash| && hash[id] in chains && chains[hash[id]] == [id] && cprev[id] == 0
  {
    var h := hash[id];
    ChainEntry(hash, cnext, cprev, h, chains[h], 0);
  }

  lemma PromotedUntouched(hash: seq<nat>, node: seq<Link>, node': seq<Link>, cnext: seq<nat>, cprev: seq<nat>,
                          ids: set<nat>, chains: map<nat, seq<nat>>, id: nat)
    requires Chained(hash, node, cnext, cprev, ids, chains) && id in ids && 0 < id < |node| && |node'| == |node|
    requires var s := chains[hash[id]]; |s| > 1 && s[0] == id && s[1] == cnext[id]
    requires node[id].up in ids || node[id].up == 0
    requires node[id].left in ids || node[id].left == 0
    requires node[id].right in ids || node[id].right == 0
    requires forall i :: 0 < i < |node| ==> node'[i] == PromotedLink(node, id, cnext[id], i)
    ensures 0 < cnext[id] < |cprev|
    ensures SameOutside(node, node', ids + {cnext[id]})
    ensures OthersUntouched(hash, chains, id, node, node', cnext, cnext, cprev, cprev[cnext[id] := 0])
  {
    var h := hash[id];
    ChainEntry(hash, cnext, cprev, h, chains[h], 1);
    assert Listed(hash, chains, cnext[id]);
    forall i | 0 < i < |node| && i !in ids + {cnext[id]}
      ensures node'[i] == node[i]
    {
    }
  }

  lemma PromotedRoot(hash: seq<nat>, node: seq<Link>, node': seq<Link>, tree: Tree, id: nat, next: nat)
    requires TreeOk(hash, node, id, tree) && tree.id == id && 0 < next < |node| && next !in Ids(tree)
    requires id < |hash| && hash[next] == hash[id] && node[id].up == 0 && 0 < id && Promotable(node, id, next)
    requires node[next] == Link(0, 0, 0, Black) && |node'| == |node|
    requires forall i :: 0 < i < |node| ==> node'[i] == PromotedLink(node, id, next, i)
    ensures
      var t' := Node(tree.left, next, Black, tree.right);
      TreeOk(hash, node', next, t') && Ids(t') == Ids(tree) - {id} + {next}
  {
    RootReplaced(node, node', tree, next);
    RootReplacedSorted(hash, tree, next);
  }

  // ---------------------------------------------------------------- what the arena indexes

  /** The arena is a well-formed index of exactly the entries `s`. */
  ghost predicate Indexes(hash: seq<nat>, node: seq<Link>, cnext: seq<nat>, cprev: seq<nat>, root: nat, s: set<nat>) {
    exists tree: Tree, chains: map<nat, seq<nat>> ::
      && TreeOk(hash, node, root, tree) && Chained(hash, node, cnext, cprev, Ids(tree), chains)
      && Members(hash, chains) == s
  }

  lemma RootListed(hash: seq<nat>, node: seq<Link>, cnext: seq<nat>, cprev: seq<nat>, root: nat, tree: Tree,
                   chains: map<nat, seq<nat>>)
    requires TreeOk(hash, node, root, tree) && Chained(hash, node, cnext, cprev, Ids(tree), chains)
    ensures Listed(hash, chains, root)
  {
    assert root in Ids(tree);
  }

  lemma HeadHangs(hash: seq<nat>, node: seq<Link>, cnext: seq<nat>, cprev: seq<nat>, root: nat, tree: Tree,
                  chains: map<nat, seq<nat>>, id: nat)
    requires TreeOk(hash, node, root, tree) && Chained(hash, node, cnext, cprev, Ids(tree), chains)
    requires Listed(hash, chains, id) && id < |cprev| && cprev[id] == 0 && id != root
    ensures id < |node| && node[id].up != 0
  {
    var h := hash[id];
    var k :| 0 <= k < |chains[h]| && chains[h][k] == id;
    assert ChainLinks(hash, cnext, cprev, h, chains[h]);
    assert cprev[chains[h][k]] == 0;
    RepIds(node, tree, root, 0);
    RepLinked(node, tree, root, 0);
    assert Linked(node, Ids(tree), root, 0, id);
  }

  /** A root that should be gone: whatever the links below it, they index it. */
  lemma StaleRoot(hash: seq<nat>, node: seq<Link>, cnext: seq<nat>, cprev: seq<nat>, root: nat, s: set<nat>)
    requires root !in s
    ensures !Indexes(hash, node, cnext, cprev, root, s)
  {
    forall tree: Tree, chains: map<nat, seq<nat>>
      | TreeOk(hash, node, root, tree) && Chained(hash, node, cnext, cprev, Ids(tree), chains)
      ensures Listed(hash, chains, root)
    {
      RootListed(hash, node, cnext, cprev, root, tree, chains);
    }
  }

  /** An entry that heads its chain but hangs nowhere is not indexed. */
  lemma OrphanLost(hash: seq<nat>, node: seq<Link>, cnext: seq<nat>, cprev: seq<nat>, root: nat, s: set<nat>, next: nat)
    requires next in s && Orphaned(node, cprev, root, next)
    ensures !Indexes(hash, node, cnext, cprev, root, s)
  {
    forall tree: Tree, chains: map<nat, seq<nat>>
      | TreeOk(hash, node, root, tree) && Chained(hash, node, cnext, cprev, Ids(tree), chains)
      ensures !Listed(hash, chains, next)
    {
      if Listed(hash, chains, next) {
        HeadHangs(hash, node, cnext, cprev, root, tree, chains, next);
      }
    }
  }

  lemma OutsideIrrelevant(hash: seq<nat>, node: seq<Link>, node': seq<Link>, cnext: seq<nat>, cprev: seq<nat>,
                          root: nat, tree: Tree, chains: map<nat, seq<nat>>, id: nat)
    requires TreeOk(hash, node, root, tree) && Chained(hash, node, cnext, cprev, Ids(tree), chains)
    requires SameOutside(node, node', {id}) && !Listed(hash, chains, id)
    ensures TreeOk(hash, node', root, tree) && Chained(hash, node', cnext, cprev, Ids(tree), chains)
  {
    RepFrame(node, node', tree, root, 0);
    forall h | h in chains
      ensures FollowersLoose(node', chains[h])
    {
      forall k | 0 < k < |chains[h]|
        ensures node'[chains[h][k]] == node[chains[h][k]]
      {
        assert Listed(hash, chains, chains[h][k]);
      }
    }
  }

  /** Links of entries outside the index do not matter. */
  lemma StillIndexes(hash: seq<nat>, node: seq<Link>, node': seq<Link>, cnext: seq<nat>, cprev: seq<nat>,
                     root: nat, tree: Tree, chains: map<nat, seq<nat>>, id: nat)
    requires TreeOk(hash, node, root, tree) && Chained(hash, node, cnext, cprev, Ids(tree), chains)
    requires SameOutside(node, node', {id}) && id !in Members(hash, chains)
    ensures TreeOk(hash, node', root, tree) && Chained(hash, node', cnext, cprev, Ids(tree), chains)
    ensures Indexes(hash, node', cnext, cprev, root, Members(hash, chains))
  {
    assert Listed(hash, chains, id) ==> id in Members(hash, chains);
    OutsideIrrelevant(hash, node, node', cnext, cprev, root, tree, chains, id);
  }

  /** An entry that is not listed under its hash is in no chain at all. */
  lemma NotListed(hash: seq<nat>, node: seq<Link>, cnext: seq<nat>, cprev: seq<nat>, ids: set<nat>,
                  chains: map<nat, seq<nat>>, id: nat)
    requires Chained(hash, node, cnext, cprev, ids, chains) && id < |hash| && !Listed(hash, chains, id)
    ensures id !in ids
    ensures forall h :: h in chains ==> id !in chains[h]
  {
    forall h | h in chains
      ensures id !in chains[h]
    {
      assert ChainLinks(hash, cnext, cprev, h, chains[h]);
    }
  }

  lemma LinksIrrelevant(hash: seq<nat>, node: seq<Link>, cnext: seq<nat>, cnext': seq<nat>, cprev: seq<nat>, cprev': seq<nat>,
                        ids: set<nat>, chains: map<nat, seq<nat>>, id: nat)
    requires Chained(hash, node, cnext, cprev, ids, chains) && id < |hash| && !Listed(hash, chains, id)
    requires |cnext'| == |cprev'| == |hash|
    requires forall i :: 0 <= i < |hash| && i != id ==> cnext'[i] == cnext[i] && cprev'[i] == cprev[i]
    ensures Chained(hash, node, cnext', cprev', ids, chains)
  {
    NotListed(hash, node, cnext, cprev, ids, chains, id);
    forall h | h in chains
      ensures ChainLinks(hash, cnext', cprev', h, chains[h])
    {
      assert forall k :: 0 <= k < |chains[h]| ==> chains[h][k] in chains[h];
    }
  }

  lemma HashIrrelevant(hash: seq<nat>, hash': seq<nat>, node: seq<Link>, cnext: seq<nat>, cprev: seq<nat>,
                       root: nat, tree: Tree, chains: map<nat, seq<nat>>, id: nat)
    requires TreeOk(hash, node, root, tree) && Chained(hash, node, cnext, cprev, Ids(tree), chains)
    requires id < |hash| == |hash'| && !Listed(hash, chains, id)
    requires forall i :: 0 <= i < |hash| && i != id ==> hash'[i] == hash[i]
    ensures TreeOk(hash', node, root, tree) && Chained(hash', node, cnext, cprev, Ids(tree), chains)
    ensures !Listed(hash', chains, id) && Members(hash', chains) == Members(hash, chains)
  {
    NotListed(hash, node, cnext, cprev, Ids(tree), chains, id);
    InorderIds(tree);
    var s := Inorder(tree);
    assert forall k :: 0 <= k < |s| ==> s[k] in s && s[k] != id;
    forall h | h in chains
      ensures ChainLinks(hash', cnext, cprev, h, chains[h])
    {
      assert forall k :: 0 <= k < |chains[h]| ==> chains[h][k] in chains[h];
    }
    assert forall i :: Listed(hash', chains, i) <==> Listed(hash, chains, i);
  }

  lemma ChainExtends(hash: seq<nat>, hash': seq<nat>, cnext: seq<nat>, cnext': seq<nat>, cprev: seq<nat>, cprev': seq<nat>,
                     h: nat, s: seq<nat>)
    requires |hash| == |cnext| == |cprev| && |hash'| == |cnext'| == |cprev'|
    requires hash <= hash' && cnext <= cnext' && cprev <= cprev' && ChainLinks(hash, cnext, cprev, h, s)
    ensures ChainLinks(hash', cnext', cprev', h, s) && forall i :: i in s ==> i < |hash|
  {
  }

  lemma TreeExtends(hash: seq<nat>, hash': seq<nat>, node: seq<Link>, node': seq<Link>, root: nat, tree: Tree)
    requires TreeOk(hash, node, root, tree) && hash <= hash' && node <= node' && |hash'| == |node'|
    ensures TreeOk(hash', node', root, tree)
  {
    RepFrame(node, node', tree, root, 0);
  }

  lemma MembersExtend(hash: seq<nat>, hash': seq<nat>, chains: map<nat, seq<nat>>)
    requires hash <= hash' && forall h, i :: h in chains && i in chains[h] ==> i < |hash|
    ensures Members(hash', chains) == Members(hash, chains)
    ensures forall i :: |hash| <= i ==> !Listed(hash', chains, i)
  {
    assert forall i :: Listed(hash', chains, i) <==> Listed(hash, chains, i);
  }

  /** The arena has been extended. */
  lemma Extended(hash: seq<nat>, hash': seq<nat>, node: seq<Link>, node': seq<Link>, cnext: seq<nat>, cnext': seq<nat>,
                 cprev: seq<nat>, cprev': seq<nat>, root: nat, tree: Tree, chains: map<nat, seq<nat>>)
    requires TreeOk(hash, node, root, tree) && Chained(hash, node, cnext, cprev, Ids(tree), chains)
    requires hash <= hash' && node <= node' && cnext <= cnext' && cprev <= cprev'
    requires |hash'| == |node'| == |cnext'| == |cprev'|
    ensures TreeOk(hash', node', root, tree) && Chained(hash', node', cnext', cprev', Ids(tree), chains)
    ensures Members(hash', chains) == Members(hash, chains)
    ensures forall i :: |hash| <= i ==> !Listed(hash', chains, i)
  {
    TreeExtends(hash, hash', node, node', root, tree);
    forall h | h in chains
      ensures ChainLinks(hash', cnext', cprev', h, chains[h]) && FollowersLoose(node', chains[h])
      ensures forall i :: i in chains[h] ==> i < |hash|
    {
      ChainExtends(hash, hash', cnext, cnext', cprev, cprev', h, chains[h]);
    }
    MembersExtend(hash, hash', chains);
  }

  /** One entry alone. */
  lemma Formatted(hash: seq<nat>, node: seq<Link>, cnext: seq<nat>, cprev: seq<nat>, root: nat, tree: Tree,
                  chains: map<nat, seq<nat>>)
    requires |hash| == |node| == |cnext| == |cprev| && 0 < root < |hash|
    requires node[root] == Link(0, 0, 0, Black) && cnext[root] == 0 == cprev[root]
    requires tree == Node(Leaf, root, Black, Leaf) && chains == map[hash[root] := [root]]
    ensures TreeOk(hash, node, root, tree) && Chained(hash, node, cnext, cprev, Ids(tree), chains)
    ensures Members(hash, chains) == {root}
  {
    assert Inorder(Leaf) == [] && Inorder(tree) == [root];
    assert Ids(Leaf) == {} && Ids(tree) == {root};
    assert Rep(node, Leaf, 0, root) && CtxRep(node, Top, root);
    assert Distinct(Leaf) && RedBlack(Leaf) && BlackHeight(Leaf) == 0;
    assert ChainLinks(hash, cnext, cprev, hash[root], [root]);
    assert forall i :: Listed(hash, chains, i) <==> i == root;
  }
}
