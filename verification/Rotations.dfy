/** Rotations of the index tree: what they do to the tree, what they do to the links of the
    arena, and that the two agree. */
module Rotations {
  import opened IndexTree

  ghost function RotatedLeft(t: Tree): Tree
    requires t.Node?
  {
    if t.right.Leaf? then t else
    var y := t.right;
    Node(Node(t.left, t.id, t.color, y.left), y.id, y.color, y.right)
  }

  ghost function RotatedRight(t: Tree): Tree
    requires t.Node?
  {
    if t.left.Leaf? then t else
    var y := t.left;
    Node(y.left, y.id, y.color, Node(y.right, t.id, t.color, t.right))
  }

  lemma RotatedLeftShape(t: Tree)
    requires t.Node?
    ensures Ids(RotatedLeft(t)) == Ids(t)
    ensures Distinct(t) ==> Distinct(RotatedLeft(t))
    ensures Inorder(RotatedLeft(t)) == Inorder(t)
  {
    if t.right.Node? {
      var y := t.right;
      var x' := Node(t.left, t.id, t.color, y.left);
      assert Ids(t) == Ids(t.left) + {t.id} + (Ids(y.left) + {y.id} + Ids(y.right));
      assert Ids(x') == Ids(t.left) + {t.id} + Ids(y.left);
      assert Distinct(t) ==> Distinct(y) && Distinct(x');
      assert Inorder(t.left) + [t.id] + (Inorder(y.left) + [y.id] + Inorder(y.right))
          == Inorder(x') + [y.id] + Inorder(y.right);
    }
  }

  /** The entries a left rotation at `x` touches exist and are different from each other. */
  ghost predicate RotatableLeft(m: seq<Link>, x: nat)
    requires x < |m|
  {
    var y, p := m[x].right, m[x].up;
    && y < |m| && p < |m|
    && (y != 0 ==> y != x && m[y].left < |m| && (m[y].left != 0 ==> m[y].left !in {x, y}))
    && (p != 0 ==> p != x && (y != 0 ==> p !in {y, m[y].left}))
  }

  /** What a left rotation at `x` does to the links. */
  ghost predicate RotateLeftLinks(m: seq<Link>, m': seq<Link>, x: nat)
    requires x < |m| && m[x].right < |m|
  {
    var y := m[x].right;
    var b, p := m[y].left, m[x].up;
    && SameOutside(m, m', {x, y, b, p})
    && m'[x] == m[x].(right := b, up := y)
    && m'[y] == m[y].(left := x, up := p)
    && (0 < b < |m| ==> m'[b] == m[b].(up := x))
    && (0 < p < |m| ==> m'[p] == if m[p].left == x then m[p].(left := y) else m[p].(right := y))
  }

  lemma RotateLeftLocal(m: seq<Link>, c: Ctx, t: Tree)
    requires t.Node? && At(m, c, t, t.id)
    ensures 0 < t.id < |m| && m[t.id].right == TreeId(t.right) && m[t.id].up == ParentId(c)
    ensures RotatableLeft(m, t.id) && (t.right.Node? <==> m[t.id].right != 0)
    ensures c.InRight? ==> m[c.id].left != t.id
  {
    assert Rep(m, t.right, m[t.id].right, t.id);
    if t.right.Node? {
      var b := t.right.left;
      assert Rep(m, b, m[t.right.id].left, t.right.id);
      assert Distinct(t.right) && Ids(b) <= Ids(t.right);
    }
    if c.InRight? {
      assert Rep(m, c.left, m[c.id].left, c.id);
    }
  }

  lemma RotateLeftCtx(m: seq<Link>, m': seq<Link>, c: Ctx, t: Tree)
    requires t.Node? && t.right.Node? && At(m, c, t, t.id)
    requires m[t.id].right < |m| && RotateLeftLinks(m, m', t.id)
    ensures CtxRep(m', c, t.right.id) && SameOutside(m, m', Ids(t) + CtxIds(c))
  {
    RotateLeftLocal(m, c, t);
    var b := t.right.left;
    assert Rep(m, t.right, m[t.id].right, t.id) && Rep(m, b, m[t.right.id].left, t.right.id);
    assert t.right.id in Ids(t.right) && (b.Node? ==> b.id in Ids(b) && b.id in Ids(t.right));
    assert t.id in Ids(t) && t.right.id in Ids(t) && (b.Node? ==> b.id in Ids(t));
    CtxRehang(m, m', c, t.id, t.right.id);
  }

  lemma RotateLeftRep(m: seq<Link>, m': seq<Link>, t: Tree, up: nat)
    requires t.Node? && t.right.Node? && Rep(m, t, t.id, up) && Distinct(t) && up !in Ids(t)
    requires m[t.id].right < |m| && RotateLeftLinks(m, m', t.id)
    ensures Rep(m', RotatedLeft(t), t.right.id, up)
  {
    var x, y, b := t.id, t.right.id, t.right.left;
    assert Distinct(t.right) && Distinct(b);
    assert y in Ids(t.right) && Ids(t.right.right) <= Ids(t.right) && Ids(b) <= Ids(t.right);
    assert Rep(m, t.right, m[x].right, x) && Rep(m, b, m[y].left, y);
    RepFrame(m, m', t.left, m[x].left, x);
    RepFrame(m, m', t.right.right, m[y].right, y);
    if b.Node? {
      RepFrame(m, m', b.left, m[b.id].left, b.id);
      RepFrame(m, m', b.right, m[b.id].right, b.id);
    }
    assert Rep(m', Node(t.left, x, t.color, b), x, y);
  }

  lemma RotateLeftAt(m: seq<Link>, m': seq<Link>, c: Ctx, t: Tree)
    requires t.Node? && t.right.Node? && At(m, c, t, t.id)
    requires m[t.id].right < |m| && RotateLeftLinks(m, m', t.id)
    ensures At(m', c, RotatedLeft(t), t.right.id) && SameOutside(m, m', Ids(Plug(c, t)))
  {
    RotatedLeftShape(t);
    RepIds(m, t, t.id, ParentId(c));
    RotateLeftCtx(m, m', c, t);
    RotateLeftRep(m, m', t, ParentId(c));
    PlugIds(c, t);
  }

  lemma RotatedRightShape(t: Tree)
    requires t.Node?
    ensures Ids(RotatedRight(t)) == Ids(t)
    ensures Distinct(t) ==> Distinct(RotatedRight(t))
    ensures Inorder(RotatedRight(t)) == Inorder(t)
  {
    if t.left.Node? {
      var y := t.left;
      var x' := Node(y.right, t.id, t.color, t.right);
      assert Ids(t) == Ids(t.right) + {t.id} + (Ids(y.right) + {y.id} + Ids(y.left));
      assert Ids(x') == Ids(t.right) + {t.id} + Ids(y.right);
      assert Distinct(t) ==> Distinct(y) && Distinct(x');
      Reassociate(Inorder(y.left), [y.id], Inorder(y.right), [t.id], Inorder(t.right));
      assert Inorder(y.left) + [y.id] + Inorder(y.right) + [t.id] + Inorder(t.right)
          == Inorder(y.left) + [y.id] + Inorder(x');
    }
  }

  /** The entries a right rotation at `x` touches exist and are different from each other. */
  ghost predicate RotatableRight(m: seq<Link>, x: nat)
    requires x < |m|
  {
    var y, p := m[x].left, m[x].up;
    && y < |m| && p < |m|
    && (y != 0 ==> y != x && m[y].right < |m| && (m[y].right != 0 ==> m[y].right !in {x, y}))
    && (p != 0 ==> p != x && (y != 0 ==> p !in {y, m[y].right}))
  }

  /** What a right rotation at `x` does to the links. */
  ghost predicate RotateRightLinks(m: seq<Link>, m': seq<Link>, x: nat)
    requires x < |m| && m[x].left < |m|
  {
    var y := m[x].left;
    var b, p := m[y].right, m[x].up;
    && SameOutside(m, m', {x, y, b, p})
    && m'[x] == m[x].(left := b, up := y)
    && m'[y] == m[y].(right := x, up := p)
    && (0 < b < |m| ==> m'[b] == m[b].(up := x))
    && (0 < p < |m| ==> m'[p] == if m[p].left == x then m[p].(left := y) else m[p].(right := y))
  }

  lemma RotateRightLocal(m: seq<Link>, c: Ctx, t: Tree)
    requires t.Node? && At(m, c, t, t.id)
    ensures 0 < t.id < |m| && m[t.id].left == TreeId(t.left) && m[t.id].up == ParentId(c)
    ensures RotatableRight(m, t.id) && (t.left.Node? <==> m[t.id].left != 0)
    ensures c.InRight? ==> m[c.id].left != t.id
  {
    assert Rep(m, t.left, m[t.id].left, t.id);
    if t.left.Node? {
      var b := t.left.right;
      assert Rep(m, b, m[t.left.id].right, t.left.id);
      assert Distinct(t.left) && Ids(b) <= Ids(t.left);
    }
    if c.InRight? {
      assert Rep(m, c.left, m[c.id].left, c.id);
    }
  }

  lemma RotateRightCtx(m: seq<Link>, m': seq<Link>, c: Ctx, t: Tree)
    requires t.Node? && t.left.Node? && At(m, c, t, t.id)
    requires m[t.id].left < |m| && RotateRightLinks(m, m', t.id)
    ensures CtxRep(m', c, t.left.id) && SameOutside(m, m', Ids(t) + CtxIds(c))
  {
    RotateRightLocal(m, c, t);
    var b := t.left.right;
    assert Rep(m, t.left, m[t.id].left, t.id) && Rep(m, b, m[t.left.id].right, t.left.id);
    assert t.left.id in Ids(t.left) && (b.Node? ==> b.id in Ids(b) && b.id in Ids(t.left));
    assert t.id in Ids(t) && t.left.id in Ids(t) && (b.Node? ==> b.id in Ids(t));
    CtxRehang(m, m', c, t.id, t.left.id);
  }

  lemma RotateRightRep(m: seq<Link>, m': seq<Link>, t: Tree, up: nat)
    requires t.Node? && t.left.Node? && Rep(m, t, t.id, up) && Distinct(t) && up !in Ids(t)
    requires m[t.id].left < |m| && RotateRightLinks(m, m', t.id)
    ensures Rep(m', RotatedRight(t), t.left.id, up)
  {
    var x, y, b := t.id, t.left.id, t.left.right;
    assert Distinct(t.left) && Distinct(b);
    assert y in Ids(t.left) && Ids(t.left.left) <= Ids(t.left) && Ids(b) <= Ids(t.left);
    assert Rep(m, t.left, m[x].left, x) && Rep(m, b, m[y].right, y);
    RepFrame(m, m', t.right, m[x].right, x);
    RepFrame(m, m', t.left.left, m[y].left, y);
    if b.Node? {
      RepFrame(m, m', b.right, m[b.id].right, b.id);
      RepFrame(m, m', b.left, m[b.id].left, b.id);
    }
    assert Rep(m', Node(b, x, t.color, t.right), x, y);
  }

  lemma RotateRightAt(m: seq<Link>, m': seq<Link>, c: Ctx, t: Tree)
    requires t.Node? && t.left.Node? && At(m, c, t, t.id)
    requires m[t.id].left < |m| && RotateRightLinks(m, m', t.id)
    ensures At(m', c, RotatedRight(t), t.left.id) && SameOutside(m, m', Ids(Plug(c, t)))
  {
    RotatedRightShape(t);
    RepIds(m, t, t.id, ParentId(c));
    RotateRightCtx(m, m', c, t);
    RotateRightRep(m, m', t, ParentId(c));
    PlugIds(c, t);
  }
}
