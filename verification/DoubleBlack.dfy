/** The local cases of passing on or absorbing a missing black after a removal. */
module DoubleBlack {
  import opened IndexTree
  import opened Rotations

  ghost function Sibling(c: Ctx): Tree
    requires !c.Top?
  {
    if c.InLeft? then c.right else c.left
  }

  ghost function WithSibling(c: Ctx, s: Tree): (c': Ctx)
    requires !c.Top?
    ensures (c'.InLeft? || c'.InRight?) && Sibling(c') == s && c'.id == c.id && c'.InLeft? == c.InLeft?
  {
    if c.InLeft? then c.(right := s) else c.(left := s)
  }

  /** The hole of the sibling, once the hole of `c` is filled with `t`. */
  ghost function Cross(c: Ctx, t: Tree): Ctx
    requires !c.Top?
  {
    if c.InLeft? then InRight(c.above, t, c.id, c.color) else InLeft(c.above, c.id, c.color, t)
  }

  /** The hole of `c` after its parent was turned below the sibling. */
  ghost function Sunk(c: Ctx): Ctx
    requires !c.Top? && Sibling(c).Node?
  {
    var b := Sibling(c);
    if c.InLeft? then InLeft(InLeft(c.above, b.id, b.color, b.right), c.id, c.color, b.left)
    else InRight(InRight(c.above, b.left, b.id, b.color), b.right, c.id, c.color)
  }

  /** The hole has the same parent, on the same side, and the same surroundings in key order. */
  ghost predicate SamePlace(c: Ctx, c': Ctx) {
    && CtxIds(c') == CtxIds(c)
    && Before(c') == Before(c) && After(c') == After(c)
    && (!c.Top? ==> !c'.Top? && c'.id == c.id && c'.InLeft? == c.InLeft?)
  }

  lemma AtCross(m: seq<Link>, c: Ctx, t: Tree, id: nat)
    requires !c.Top? && At(m, c, t, id)
    ensures At(m, Cross(c, t), Sibling(c), TreeId(Sibling(c)))
    ensures 0 < c.id < |m|
    ensures c.InLeft? ==> m[c.id].left == id && m[c.id].right == TreeId(Sibling(c))
    ensures c.InRight? ==> m[c.id].right == id && m[c.id].left == TreeId(Sibling(c))
    ensures RootId(Cross(c, t), TreeId(Sibling(c))) == RootId(c, id)
  {
    AtUp(m, c, t, id);
    AtDown(m, c.above, Up(c, t));
  }

  lemma AtParentRecolor(m: seq<Link>, c: Ctx, t: Tree, id: nat, color: Color)
    requires !c.Top? && At(m, c, t, id)
    ensures 0 < c.id < |m| && At(m[c.id := m[c.id].(color := color)], c.(color := color), t, id)
    ensures SamePlace(c, c.(color := color))
  {
    AtUp(m, c, t, id);
    AtRecolor(m, c.above, Up(c, t), color);
    var m' := m[c.id := m[c.id].(color := color)];
    AtDown(m', c.above, Up(c, t).(color := color));
    RepTreeId(m, t, id, c.id);
  }

  lemma RepTreeId(m: seq<Link>, t: Tree, id: nat, up: nat)
    requires Rep(m, t, id, up)
    ensures id == TreeId(t) && (t.Leaf? <==> id == 0)
  {
  }

  lemma AtSiblingRecolor(m: seq<Link>, c: Ctx, t: Tree, id: nat, color: Color)
    requires !c.Top? && Sibling(c).Node? && At(m, c, t, id)
    ensures
      var b := Sibling(c);
      && 0 < b.id < |m| && b.id in CtxIds(c)
      && At(m[b.id := m[b.id].(color := color)], WithSibling(c, b.(color := color)), t, id)
      && SamePlace(c, WithSibling(c, b.(color := color)))
  {
    var b := Sibling(c);
    AtCross(m, c, t, id);
    RepTreeId(m, t, id, c.id);
    AtRecolor(m, Cross(c, t), b, color);
    AtDown(m, Cross(c, t), b);
    AtCross(m[b.id := m[b.id].(color := color)], Cross(c, t), b.(color := color), b.id);
    assert Inorder(b.(color := color)) == Inorder(b) && Ids(b.(color := color)) == Ids(b);
  }

  /** The child of the sibling nearest to (farthest from) the hole. */
  ghost function Nephew(c: Ctx, near: bool): Tree
    requires !c.Top? && Sibling(c).Node?
  {
    if c.InLeft? == near then Sibling(c).left else Sibling(c).right
  }

  ghost function WithNephew(c: Ctx, near: bool, s: Tree): Ctx
    requires !c.Top? && Sibling(c).Node?
  {
    WithSibling(c, if c.InLeft? == near then Sibling(c).(left := s) else Sibling(c).(right := s))
  }

  lemma AtNephewRecolor(m: seq<Link>, c: Ctx, t: Tree, id: nat, near: bool, color: Color)
    requires !c.Top? && Sibling(c).Node? && Nephew(c, near).Node? && At(m, c, t, id)
    ensures
      var s := Nephew(c, near);
      && 0 < s.id < |m| && s.id in CtxIds(c)
      && At(m[s.id := m[s.id].(color := color)], WithNephew(c, near, s.(color := color)), t, id)
      && SamePlace(c, WithNephew(c, near, s.(color := color)))
  {
    var b, s := Sibling(c), Nephew(c, near);
    AtCross(m, c, t, id);
    RepTreeId(m, t, id, c.id);
    var d := if c.InLeft? == near then DownLeft(Cross(c, t), b) else DownRight(Cross(c, t), b);
    AtDown(m, Cross(c, t), b);
    AtSiblingless(m, d, s, color);
    var b' := if c.InLeft? == near then b.(left := s.(color := color)) else b.(right := s.(color := color));
    AtCross(m[s.id := m[s.id].(color := color)], Cross(c, t), b', b'.id);
    assert s.id in Ids(s) && Ids(s) <= Ids(b);
    assert Inorder(b') == Inorder(b) && Ids(b') == Ids(b);
  }

  lemma AtSiblingless(m: seq<Link>, c: Ctx, t: Tree, color: Color)
    requires t.Node? && !c.Top? && At(m, c, t, t.id)
    ensures 0 < t.id < |m|
    ensures At(m[t.id := m[t.id].(color := color)], c.above, Up(c, t.(color := color)), c.id)
  {
    AtRecolor(m, c, t, color);
    AtUp(m[t.id := m[t.id].(color := color)], c, t.(color := color), t.id);
  }

  /** After the parent was turned below the sibling, the hole is one level deeper. */
  lemma AtSunk(m: seq<Link>, c: Ctx, t: Tree)
    requires !c.Top? && Sibling(c).Node? && t.Node?
    requires
      var turned := if c.InLeft? then RotatedLeft(Up(c, t)) else RotatedRight(Up(c, t));
      At(m, c.above, turned, turned.id)
    ensures At(m, Sunk(c), t, t.id) && SamePlace(c, Sunk(c))
    ensures RootId(Sunk(c), t.id) == RootId(c.above, Sibling(c).id)
  {
    var turned := if c.InLeft? then RotatedLeft(Up(c, t)) else RotatedRight(Up(c, t));
    AtDown(m, c.above, turned);
    if c.InLeft? {
      AtDown(m, DownLeft(c.above, turned), turned.left);
    } else {
      AtDown(m, DownRight(c.above, turned), turned.right);
    }
    SunkPlace(c);
  }

  lemma SunkPlace(c: Ctx)
    requires !c.Top? && Sibling(c).Node?
    ensures SamePlace(c, Sunk(c))
  {
    var b := Sibling(c);
    if c.InLeft? {
      assert [c.id] + (Inorder(b.left) + [b.id] + Inorder(b.right)) + After(c.above)
          == [c.id] + Inorder(b.left) + ([b.id] + Inorder(b.right) + After(c.above));
    } else {
      assert Before(c.above) + (Inorder(b.left) + [b.id] + Inorder(b.right)) + [c.id]
          == Before(c.above) + Inorder(b.left) + [b.id] + Inorder(b.right) + [c.id];
    }
  }

  // ---------------------------------------------------------------- the colours add up

  /** The sibling is red: after the turn the hole has a red parent and a black sibling. */
  ghost function RedSiblingTurned(c: Ctx): Ctx
    requires !c.Top? && Sibling(c).Node?
  {
    Sunk(WithSibling(c.(color := Red), Sibling(c).(color := Black)))
  }

  lemma RedSiblingTurnedRedBlack(c: Ctx, n: nat)
    requires !c.Top? && Sibling(c).Node? && Sibling(c).color.Red? && CtxRedBlack(c, n + 1)
    ensures CtxRedBlack(RedSiblingTurned(c), n + 1)
    ensures RedSiblingTurned(c).color.Red? && SamePlace(c, RedSiblingTurned(c))
  {
    var b := Sibling(c);
    assert c.color.Black?;
    assert RedBlack(b.left) && RedBlack(b.right);
    SunkPlace(WithSibling(c.(color := Red), b.(color := Black)));
  }

  /** The sibling is black with a red far child: one turn absorbs the missing black. */
  ghost function FarTurned(c: Ctx): Ctx
    requires !c.Top? && Sibling(c).Node? && Nephew(c, false).Node?
  {
    var c1 := WithNephew(c, false, Nephew(c, false).(color := Sibling(c).color));
    Sunk(WithSibling(c1, Sibling(c1).(color := c.color))).(color := Black)
  }

  lemma FarTurnedRedBlack(c: Ctx, n: nat)
    requires !c.Top? && Sibling(c).Node? && Sibling(c).color.Black? && CtxRedBlack(c, n + 1)
    requires TreeColor(Nephew(c, false)).Red?
    ensures CtxRedBlack(FarTurned(c), n)
  {
    var s, far, near := Sibling(c), Nephew(c, false), Nephew(c, true);
    assert RedBlack(far) && RedBlack(near) && BlackHeight(far) == BlackHeight(near) == n;
    assert RedBlack(far.(color := Black));
  }

  /** The sibling is black with a red near child: two turns absorb the missing black. */
  ghost function NearTurned(c: Ctx): Ctx
    requires !c.Top? && Sibling(c).Node? && Nephew(c, true).Node?
  {
    var s := Sibling(WithNephew(c, true, Nephew(c, true).(color := c.color)));
    Sunk(WithSibling(c, if c.InLeft? then RotatedRight(s) else RotatedLeft(s))).(color := Black)
  }

  lemma NearTurnedRedBlack(c: Ctx, n: nat)
    requires !c.Top? && Sibling(c).Node? && Sibling(c).color.Black? && CtxRedBlack(c, n + 1)
    requires TreeColor(Nephew(c, true)).Red?
    ensures CtxRedBlack(NearTurned(c), n)
  {
    var s, far, near := Sibling(c), Nephew(c, false), Nephew(c, true);
    assert RedBlack(far) && RedBlack(near) && BlackHeight(far) == BlackHeight(near) == n;
    assert RedBlack(near.left) && RedBlack(near.right);
    var inner := if c.InLeft? then Node(near.right, s.id, Black, far) else Node(far, s.id, Black, near.left);
    assert RedBlack(inner) && BlackHeight(inner) == n + 1;
  }

  /** The sibling and both its children are black: the sibling turns red. */
  lemma SiblingReddened(c: Ctx, n: nat)
    requires !c.Top? && Sibling(c).Node? && Sibling(c).color.Black? && CtxRedBlack(c, n + 1)
    requires TreeColor(Nephew(c, true)).Black? && TreeColor(Nephew(c, false)).Black?
    ensures
      var s := Sibling(c).(color := Red);
      && RedBlack(s) && BlackHeight(s) == n
      && CtxRedBlack(c.above, n + if c.color.Black? then 2 else 1)
      && (c.color.Red? ==> CtxRedBlack(WithSibling(c, s).(color := Black), n))
  {
  }

  /** What the links say where a missing black below `c` is dealt with. */
  lemma FixLinks(m: seq<Link>, c: Ctx, t: Tree, n: nat)
    requires t.Node? && At(m, c, t, t.id) && CtxRedBlack(c, n + 1)
    ensures 0 < t.id < |m| && m[t.id].up == ParentId(c) && (c.Top? <==> ParentId(c) == 0)
    ensures !c.Top? ==>
      var s := Sibling(c);
      && c.id < |m| && m[c.id].color == c.color && s.Node? && s.id != t.id
      && (if m[c.id].left == t.id then m[c.id].right else m[c.id].left) == s.id
      && 0 < s.id < |m| && m[s.id].color == s.color && (m[c.id].left == s.id <==> c.InRight?)
      && m[s.id].left == TreeId(s.left) && m[s.id].right == TreeId(s.right)
      && (s.left.Node? <==> TreeId(s.left) != 0) && (s.right.Node? <==> TreeId(s.right) != 0)
      && (s.left.Node? ==> s.left.id < |m| && m[s.left.id].color == s.left.color)
      && (s.right.Node? ==> s.right.id < |m| && m[s.right.id].color == s.right.color)
  {
    AtDown(m, c, t);
    if !c.Top? {
      var s := Sibling(c);
      AtUp(m, c, t, t.id);
      AtCross(m, c, t, t.id);
      AtDown(m, Cross(c, t), s);
      assert s.id in Ids(s) && t.id in Ids(t);
      if s.left.Node? { AtDown(m, DownLeft(Cross(c, t), s), s.left); }
      if s.right.Node? { AtDown(m, DownRight(Cross(c, t), s), s.right); }
    }
  }

  ghost function FixRank(c: Ctx): nat {
    if ParentColor(c).Red? then 0 else Depth(c) + 1
  }

  /** A fixed context for the parent's subtree is a fixed context for the child's. */
  lemma FixedAbove(m: seq<Link>, c: Ctx, c': Ctx, t: Tree, n: nat)
    requires !c.Top? && t.Node? && At(m, c', Up(c, t), c.id) && SamePlace(c.above, c')
    requires c.color.Black? && CtxRedBlack(c', n + 1) && RedBlack(Sibling(c)) && BlackHeight(Sibling(c)) == n
    ensures At(m, c.(above := c'), t, t.id) && RootId(c.(above := c'), t.id) == RootId(c', c.id)
    ensures CtxRedBlack(c.(above := c'), n) && SamePlace(c, c.(above := c'))
  {
    AtDown(m, c', Up(c, t));
  }

  /** The sibling was turned in place. */
  lemma TurnedSibling(m: seq<Link>, c: Ctx, t: Tree, s: Tree)
    requires !c.Top? && t.Node? && s.Node? && Sibling(c).Node?
    requires s == RotatedLeft(Sibling(c)) || s == RotatedRight(Sibling(c))
    requires At(m, Cross(c, t), s, s.id)
    ensures At(m, WithSibling(c, s), t, t.id) && SamePlace(c, WithSibling(c, s))
    ensures RootId(WithSibling(c, s), t.id) == RootId(Cross(c, t), s.id)
    ensures Ids(Plug(Cross(c, t), Sibling(c))) == CtxIds(c) + Ids(t)
  {
    AtCross(m, Cross(c, t), s, s.id);
    RotatedLeftShape(Sibling(c));
    RotatedRightShape(Sibling(c));
    PlugIds(Cross(c, t), Sibling(c));
  }
}
