/** The local cases of restoring the red-black shape after an insertion or a removal. */
module Repairs {
  import opened IndexTree
  import opened Rotations

  /** `t` has a grandchild `id` on its outer left (right) side. */
  ghost predicate Outer(t: Tree, onLeft: bool, id: nat) {
    && t.Node?
    && if onLeft then t.left.Node? && t.left.left.Node? && t.left.left.id == id
       else t.right.Node? && t.right.right.Node? && t.right.right.id == id
  }

  /** `t` turned so that the father of an outer grandchild is on top, black, with the old top
      red beneath it. */
  ghost function Lifted(t: Tree, onLeft: bool): Tree
    requires t.Node? && if onLeft then t.left.Node? else t.right.Node?
  {
    if onLeft then
      var f := t.left;
      Node(f.left, f.id, Black, Node(f.right, t.id, Red, t.right))
    else
      var f := t.right;
      Node(Node(t.left, t.id, Red, f.left), f.id, Black, f.right)
  }

  lemma OuterLinks(m: seq<Link>, c: Ctx, t: Tree, onLeft: bool, id: nat)
    requires Outer(t, onLeft, id) && At(m, c, t, t.id)
    ensures 0 < id < |m| && 0 < m[id].up < |m| && m[m[id].up].up == t.id
    ensures m[id].up == if onLeft then t.left.id else t.right.id
    ensures m[m[id].up].left == id <==> onLeft
  {
    AtDown(m, c, t);
    if onLeft {
      AtDown(m, DownLeft(c, t), t.left);
      AtDown(m, DownLeft(DownLeft(c, t), t.left), t.left.left);
    } else {
      var f := t.right;
      AtDown(m, DownRight(c, t), f);
      AtDown(m, DownRight(DownRight(c, t), f), f.right);
      assert id in Ids(f.right) && (f.left.Node? ==> f.left.id in Ids(f.left));
    }
  }

  lemma LiftedLinks(m: seq<Link>, c: Ctx, t: Tree, onLeft: bool)
    requires t.Node? && if onLeft then t.left.Node? else t.right.Node?
    requires
      var turned := if onLeft then RotatedRight(t) else RotatedLeft(t);
      At(m, c, turned, turned.id)
    ensures
      var f := if onLeft then t.left.id else t.right.id;
      && f < |m| && t.id < |m| && f in Ids(t)
      && At(m[f := m[f].(color := Black)][t.id := m[f := m[f].(color := Black)][t.id].(color := Red)], c, Lifted(t, onLeft), f)
  {
    var turned := if onLeft then RotatedRight(t) else RotatedLeft(t);
    var f := turned.id;
    AtDown(m, c, turned);
    AtRecolor(m, c, turned, Black);
    var m1, t1 := m[f := m[f].(color := Black)], turned.(color := Black);
    AtDown(m1, c, t1);
    var c2, g := if onLeft then DownRight(c, t1) else DownLeft(c, t1), if onLeft then t1.right else t1.left;
    AtRecolor(m1, c2, g, Red);
    AtUp(m1[g.id := m1[g.id].(color := Red)], c2, g.(color := Red), g.id);
  }

  /** Reads the whole tree off a subtree whose context needs no further repair. */
  lemma Finish(m: seq<Link>, c: Ctx, t: Tree, id: nat) returns (whole: Tree)
    requires At(m, c, t, id) && (t.Leaf? ==> !c.Top?)
    requires RedBlack(t) && CtxRedBlack(c, BlackHeight(t))
    requires TreeColor(t).Red? ==> ParentColor(c).Black?
    ensures At(m, Top, whole, RootId(c, id)) && RedBlackRoot(whole)
    ensures Inorder(whole) == Inorder(Plug(c, t))
  {
    whole := Plug(c, t);
    AtTop(m, c, t, id);
    PlugRedBlack(c, t);
  }

  /** Where father, brother of the father and grandfather of the subtree `t` are found. */
  lemma GrandLinks(m: seq<Link>, c: Ctx, t: Tree)
    requires t.Node? && !c.Top? && !c.above.Top? && At(m, c, t, t.id)
    ensures 0 < t.id < |m| && m[t.id].up == c.id < |m| && m[c.id].up == c.above.id < |m| && 0 < c.id && 0 < c.above.id
    ensures At(m, c.above, Up(c, t), c.id) && At(m, c.above.above, Up(c.above, Up(c, t)), c.above.id)
    ensures m[c.above.id].left == TreeId(Up(c.above, Up(c, t)).left) && m[c.above.id].right == TreeId(Up(c.above, Up(c, t)).right)
    ensures m[c.id].left == TreeId(Up(c, t).left) && m[c.id].right == TreeId(Up(c, t).right)
    ensures c.above.InRight? ==> m[c.above.id].left != c.id
    ensures c.InRight? ==> m[c.id].left != t.id
    ensures c.InLeft? ==> m[c.id].right != t.id
    ensures var u := Uncle(c); u.Node? ==> 0 < u.id < |m| && m[u.id].color == u.color && m[u.id].left != t.id && m[u.id].right != t.id
    ensures Uncle(c).Node? <==> TreeId(Uncle(c)) != 0
  {
    AtUp(m, c, t, t.id);
    AtUp(m, c.above, Up(c, t), c.id);
    AtDown(m, c.above.above, Up(c.above, Up(c, t)));
    AtDown(m, c.above, Up(c, t));
    var u := Uncle(c);
    assert t.id in Ids(t) && t.id in Ids(Up(c, t));
    if u.Node? {
      var up := Up(c.above, Up(c, t));
      AtDown(m, if c.above.InLeft? then DownRight(c.above.above, up) else DownLeft(c.above.above, up), u);
      assert u.left.Node? ==> u.left.id in Ids(u.left);
      assert u.right.Node? ==> u.right.id in Ids(u.right);
    }
    if c.InRight? && c.left.Node? { assert c.left.id in Ids(c.left); }
    if c.InLeft? && c.right.Node? { assert c.right.id in Ids(c.right); }
  }

  /** Where the repair of a red entry finds its father, uncle and grandfather. */
  lemma RepairLinks(m: seq<Link>, c: Ctx, t: Tree)
    requires t.Node? && At(m, c, t, t.id) && CtxRedBlack(c, BlackHeight(t))
    ensures 0 < t.id < |m| && m[t.id].up == ParentId(c)
    ensures c.Top? <==> ParentId(c) == 0
    ensures !c.Top? ==> c.id < |m| && m[c.id].color == c.color
    ensures !c.Top? && c.color.Red? ==>
      var u := Uncle(c);
      && m[c.id].up == c.above.id != 0 && c.above.id < |m|
      && TreeId(u) == (if m[c.above.id].left == c.id then m[c.above.id].right else m[c.above.id].left)
      && (u.Node? <==> TreeId(u) != 0) && (u.Node? ==> u.id < |m| && m[u.id].color == u.color)
  {
    AtDown(m, c, t);
    if !c.Top? {
      AtUp(m, c, t, t.id);
      if c.color.Red? {
        GrandLinks(m, c, t);
      }
    }
  }

  ghost function Uncle(c: Ctx): Tree
    requires !c.Top? && !c.above.Top?
  {
    if c.above.InLeft? then c.above.right else c.above.left
  }

  /** The grandfather's subtree once the grandchild at the hole of `c` has been turned outwards. */
  ghost function TurnedOutwards(c: Ctx, t: Tree): Tree
    requires t.Node? && !c.Top? && !c.above.Top?
  {
    var tf := Up(c, t);
    if c.above.InLeft? && c.InRight? then Up(c.above, RotatedLeft(tf))
    else if c.above.InRight? && c.InLeft? then Up(c.above, RotatedRight(tf))
    else Up(c.above, tf)
  }

  ghost function OuterId(c: Ctx, t: Tree): nat
    requires t.Node? && !c.Top? && !c.above.Top?
  {
    if c.above.InLeft? == c.InLeft? then t.id else c.id
  }

  /** With a black uncle, lifting the father of the outer grandchild ends the repair. */
  lemma TurnedOutwardsRedBlack(c: Ctx, t: Tree)
    requires t.Node? && t.color.Red? && !c.Top? && c.color.Red? && !c.above.Top?
    requires RedBlack(t) && CtxRedBlack(c, BlackHeight(t)) && TreeColor(Uncle(c)).Black?
    ensures
      var tg := TurnedOutwards(c, t);
      && Outer(tg, c.above.InLeft?, OuterId(c, t))
      && var lifted := Lifted(tg, c.above.InLeft?);
         RedBlack(lifted) && CtxRedBlack(c.above.above, BlackHeight(lifted)) && lifted.color.Black?
  {
    var g, u := c.above.id, Uncle(c);
    var lifted := Lifted(TurnedOutwards(c, t), c.above.InLeft?);
    assert RedBlack(t.left) && RedBlack(t.right) && RedBlack(u) && CtxRedBlack(c.above, BlackHeight(t));
    if c.above.InLeft? {
      if c.InLeft? {
        assert lifted == Node(t, c.id, Black, Node(c.right, g, Red, u));
        assert RedBlack(Node(c.right, g, Red, u));
      } else {
        assert lifted == Node(Node(c.left, c.id, Red, t.left), t.id, Black, Node(t.right, g, Red, u));
        assert RedBlack(Node(c.left, c.id, Red, t.left)) && RedBlack(Node(t.right, g, Red, u));
      }
    } else {
      if c.InRight? {
        assert lifted == Node(Node(u, g, Red, c.left), c.id, Black, t);
        assert RedBlack(Node(u, g, Red, c.left));
      } else {
        assert lifted == Node(Node(u, g, Red, t.left), t.id, Black, Node(t.right, c.id, Red, c.right));
        assert RedBlack(Node(t.right, c.id, Red, c.right)) && RedBlack(Node(u, g, Red, t.left));
      }
    }
  }

  lemma TurnedOutwardsInorder(c: Ctx, t: Tree)
    requires t.Node? && !c.Top? && !c.above.Top?
    ensures
      var tg := TurnedOutwards(c, t);
      && Ids(Plug(c.above.above, tg)) == Ids(Plug(c, t))
      && Inorder(Plug(c.above.above, Lifted(tg, c.above.InLeft?))) == Inorder(Plug(c, t))
  {
    var tf, cg, tg := Up(c, t), c.above.above, TurnedOutwards(c, t);
    RotatedLeftShape(tf);
    RotatedRightShape(tf);
    assert Inorder(tg) == Inorder(Up(c.above, tf));
    PlugSame(cg, tg, Up(c.above, tf));
    assert Plug(c, t) == Plug(c.above, tf) == Plug(cg, Up(c.above, tf));
    RotatedLeftShape(tg);
    RotatedRightShape(tg);
    PlugSame(cg, tg, Lifted(tg, c.above.InLeft?));
  }

  ghost function Recolored(t: Tree): Tree
    requires t.Node? && t.left.Node? && t.right.Node?
  {
    Node(t.left.(color := Black), t.id, Red, t.right.(color := Black))
  }

  lemma FamilyRecolor(m: seq<Link>, c: Ctx, t: Tree)
    requires t.Node? && t.left.Node? && t.right.Node? && At(m, c, t, t.id)
    ensures
      var l, r, g := t.left.id, t.right.id, t.id;
      && 0 < l < |m| && 0 < r < |m| && 0 < g < |m| && l != r && l != g && r != g && {l, r, g} <= Ids(t)
  {
    AtDown(m, c, t);
    AtDown(m, DownLeft(c, t), t.left);
    AtDown(m, DownRight(c, t), t.right);
    assert t.left.id in Ids(t.left) && t.right.id in Ids(t.right);
  }

  lemma RecoloredAt(m: seq<Link>, m': seq<Link>, c: Ctx, t: Tree)
    requires t.Node? && t.left.Node? && t.right.Node? && At(m, c, t, t.id)
    requires 0 < t.id < |m| && 0 < t.left.id < |m| && 0 < t.right.id < |m|
    requires SameOutside(m, m', {t.left.id, t.right.id, t.id})
    requires m'[t.left.id] == m[t.left.id].(color := Black) && m'[t.right.id] == m[t.right.id].(color := Black)
    requires m'[t.id] == m[t.id].(color := Red)
    ensures At(m', c, Recolored(t), t.id) && SameOutside(m, m', Ids(Plug(c, t)))
  {
    var l, r := t.left.(color := Black), t.right.(color := Black);
    FamilyRecolor(m, c, t);
    CtxRepFrame(m, m', c, t.id);
    RecoloredRep(m, m', t.left, m[t.id].left, t.id, Black);
    RecoloredRep(m, m', t.right, m[t.id].right, t.id, Black);
    PlugIds(c, t);
    assert Ids(l) == Ids(t.left) && Ids(r) == Ids(t.right) && Distinct(l) && Distinct(r);
  }

  lemma RecoloredRep(m: seq<Link>, m': seq<Link>, t: Tree, id: nat, up: nat, color: Color)
    requires t.Node? && Rep(m, t, id, up) && Distinct(t)
    requires |m| == |m'| && m'[id] == m[id].(color := color)
    requires forall i :: i in Ids(t) && 0 < i < |m| && i != id ==> m'[i] == m[i]
    ensures Rep(m', t.(color := color), id, up)
  {
    RepFrame(m, m', t.left, m[id].left, id);
    RepFrame(m, m', t.right, m[id].right, id);
  }

  /** Recolouring the family passes a possible red-red pair two levels up and nothing else. */
  lemma RecoloredRedBlack(c: Ctx, t: Tree)
    requires t.Node? && t.color.Red? && !c.Top? && c.color.Red? && !c.above.Top? && TreeColor(Uncle(c)).Red?
    requires RedBlack(t) && CtxRedBlack(c, BlackHeight(t))
    ensures
      var tg := Up(c.above, Up(c, t));
      && tg.left.Node? && tg.right.Node? && {tg.left.id, tg.right.id} == {c.id, Uncle(c).id}
      && RedBlack(Recolored(tg)) && CtxRedBlack(c.above.above, BlackHeight(Recolored(tg)))
  {
  }

  lemma RecoloredInorder(m: seq<Link>, c: Ctx, t: Tree)
    requires t.Node? && !c.Top? && !c.above.Top? && At(m, c, t, t.id)
    ensures
      var cg, tg := c.above.above, Up(c.above, Up(c, t));
      && At(m, cg, tg, tg.id) && tg.id == c.above.id && RootId(cg, tg.id) == RootId(c, t.id)
      && Ids(Plug(cg, tg)) == Ids(Plug(c, t))
      && (tg.left.Node? && tg.right.Node? ==>
          Inorder(Plug(cg, Recolored(tg))) == Inorder(Plug(c, t)) && Ids(Plug(cg, Recolored(tg))) == Ids(Plug(c, t)))
  {
    var tg := Up(c.above, Up(c, t));
    AtUp(m, c, t, t.id);
    AtUp(m, c.above, Up(c, t), c.id);
    assert Plug(c, t) == Plug(c.above, Up(c, t)) == Plug(c.above.above, tg);
    if tg.left.Node? && tg.right.Node? {
      assert Inorder(Recolored(tg)) == Inorder(tg);
      PlugSame(c.above.above, tg, Recolored(tg));
    }
  }
}
