/** How deep a red-black tree can be. */
module Balance {
  import opened IndexTree

  ghost function Height(t: Tree): nat {
    match t
    case Leaf => 0
    case Node(l, _, _, r) => 1 + if Height(l) > Height(r) then Height(l) else Height(r)
  }

  ghost function Pow2(n: nat): nat {
    if n == 0 then 1 else 2 * Pow2(n - 1)
  }

  lemma {:induction false} DepthBounded(c: Ctx, t: Tree)
    ensures Depth(c) + Height(t) <= Height(Plug(c, t))
  {
    match c
    case Top =>
    case InLeft(above, id, color, r) => DepthBounded(above, Node(t, id, color, r));
    case InRight(above, l, id, color) => DepthBounded(above, Node(l, id, color, t));
  }

  /** A path down alternates at worst between black and red entries. */
  lemma {:induction false} HeightBounded(t: Tree)
    requires RedBlack(t)
    ensures Height(t) <= 2 * BlackHeight(t) + if TreeColor(t).Red? then 1 else 0
  {
    if t.Node? {
      HeightBounded(t.left);
      HeightBounded(t.right);
    }
  }

  lemma Apart(a: set<nat>, x: nat, b: set<nat>)
    requires a !! b && x !in a && x !in b
    ensures |a + {x} + b| == |a| + 1 + |b|
  {
    assert |a + {x}| == |a| + 1;
  }

  /** A tree holds at least all the black entries its black height asks for. */
  lemma {:induction false} ManyEntries(t: Tree)
    requires RedBlack(t) && Distinct(t)
    ensures Pow2(BlackHeight(t)) <= |Ids(t)| + 1
  {
    if t.Node? {
      ManyEntries(t.left);
      ManyEntries(t.right);
      Apart(Ids(t.left), t.id, Ids(t.right));
      Doubled(BlackHeight(t.left), BlackHeight(t));
    }
  }

  lemma Doubled(n: nat, m: nat)
    requires m == n || m == n + 1
    ensures Pow2(m) <= 2 * Pow2(n)
  {
  }

  lemma {:induction false} PowMonotone(a: nat, b: nat)
    requires a <= b
    ensures Pow2(a) <= Pow2(b)
    decreases b - a
  {
    if a < b {
      PowMonotone(a + 1, b);
    }
  }

  /** The height is at most twice the binary logarithm of the number of entries plus one. */
  lemma Logarithmic(t: Tree)
    requires RedBlackRoot(t) && Distinct(t)
    ensures Pow2((Height(t) + 1) / 2) <= |Ids(t)| + 1
  {
    HeightBounded(t);
    ManyEntries(t);
    PowMonotone((Height(t) + 1) / 2, BlackHeight(t));
  }
}
