/** The shape behind the hash index of the metadata store: a red-black tree whose nodes are
    entry numbers, the one-hole contexts used to talk about a subtree in place, and the
    predicate that says which links of the arena spell out a given tree. */
module IndexTree {

  datatype Color = Black | Red

  /** The tree links of one entry; 0 stands for "no entry". */
  datatype Link = Link(up: nat, left: nat, right: nat, color: Color)

  datatype Tree = Leaf | Node(left: Tree, id: nat, color: Color, right: Tree)

  /** A tree with one subtree cut out. */
  datatype Ctx =
    | Top
    | InLeft(above: Ctx, id: nat, color: Color, right: Tree)
    | InRight(above: Ctx, left: Tree, id: nat, color: Color)

  ghost function Plug(c: Ctx, t: Tree): Tree {
    match c
    case Top => t
    case InLeft(above, id, color, right) => Plug(above, Node(t, id, color, right))
    case InRight(above, left, id, color) => Plug(above, Node(left, id, color, t))
  }

  ghost function Ids(t: Tree): set<nat> {
    match t
    case Leaf => {}
    case Node(l, id, _, r) => Ids(l) + {id} + Ids(r)
  }

  ghost function CtxIds(c: Ctx): set<nat> {
    match c
    case Top => {}
    case InLeft(above, id, _, r) => CtxIds(above) + {id} + Ids(r)
    case InRight(above, l, id, _) => CtxIds(above) + {id} + Ids(l)
  }

  ghost predicate Distinct(t: Tree) {
    match t
    case Leaf => true
    case Node(l, id, _, r) =>
      && id !in Ids(l) && id !in Ids(r) && Ids(l) !! Ids(r)
      && Distinct(l) && Distinct(r)
  }

  ghost predicate CtxDistinct(c: Ctx) {
    match c
    case Top => true
    case InLeft(above, id, _, r) =>
      && id !in CtxIds(above) && id !in Ids(r) && CtxIds(above) !! Ids(r)
      && CtxDistinct(above) && Distinct(r)
    case InRight(above, l, id, _) =>
      && id !in CtxIds(above) && id !in Ids(l) && CtxIds(above) !! Ids(l)
      && CtxDistinct(above) && Distinct(l)
  }

  /** The entry just above the hole, 0 at the top. */
  ghost function ParentId(c: Ctx): nat {
    if c.Top? then 0 else c.id
  }

  /** The number of entries above the hole. */
  ghost function Depth(c: Ctx): nat {
    if c.Top? then 0 else Depth(c.above) + 1
  }

  /** The colour just above the hole. The top counts as red: a root must be black. */
  ghost function ParentColor(c: Ctx): Color {
    if c.Top? then Red else c.color
  }

  ghost function TreeColor(t: Tree): Color {
    if t.Leaf? then Black else t.color
  }

  ghost function TreeId(t: Tree): nat {
    if t.Leaf? then 0 else t.id
  }

  /** The root of the whole tree when the hole is filled with a subtree rooted at `id`. */
  ghost function RootId(c: Ctx, id: nat): nat {
    if c.Top? then id else RootId(c.above, c.id)
  }

  // ---------------------------------------------------------------- in-order reading

  ghost function Inorder(t: Tree): seq<nat> {
    match t
    case Leaf => []
    case Node(l, id, _, r) => Inorder(l) + [id] + Inorder(r)
  }

  ghost function Before(c: Ctx): seq<nat> {
    match c
    case Top => []
    case InLeft(above, _, _, _) => Before(above)
    case InRight(above, l, id, _) => Before(above) + Inorder(l) + [id]
  }

  ghost function After(c: Ctx): seq<nat> {
    match c
    case Top => []
    case InLeft(above, id, _, r) => [id] + Inorder(r) + After(above)
    case InRight(above, _, _, _) => After(above)
  }

  lemma Reassociate(a: seq<nat>, b: seq<nat>, x: seq<nat>, d: seq<nat>, e: seq<nat>)
    ensures a + (b + x + d) + e == a + b + (x + d + e)
    ensures a + (b + x + d) + e == (a + b + x) + d + e
    ensures a + (b + x + d) + e == a + b + x + (d + e)
  {
  }

  lemma {:induction false} PlugInorder(c: Ctx, t: Tree)
    ensures Inorder(Plug(c, t)) == Before(c) + Inorder(t) + After(c)
  {
    match c
    case Top =>
    case InLeft(above, id, color, r) =>
      PlugInorder(above, Node(t, id, color, r));
      Reassociate(Before(above), Inorder(t), [id], Inorder(r), After(above));
    case InRight(above, l, id, color) =>
      PlugInorder(above, Node(l, id, color, t));
      Reassociate(Before(above), Inorder(l), [id], Inorder(t), After(above));
  }

  lemma {:induction false} InorderIds(t: Tree)
    ensures forall x :: x in Inorder(t) <==> x in Ids(t)
  {
    match t
    case Leaf =>
    case Node(l, id, _, r) => InorderIds(l); InorderIds(r);
  }

  lemma {:induction false} SameInorder(t: Tree, t': Tree)
    requires Inorder(t) == Inorder(t')
    ensures Ids(t) == Ids(t')
  {
    InorderIds(t);
    InorderIds(t');
    assert forall x :: x in Ids(t) <==> x in Ids(t');
  }

  /** Refilling a hole with a subtree that reads the same leaves the whole reading alone. */
  lemma PlugSame(c: Ctx, t: Tree, t': Tree)
    requires Inorder(t) == Inorder(t')
    ensures Inorder(Plug(c, t)) == Inorder(Plug(c, t')) && Ids(Plug(c, t)) == Ids(Plug(c, t'))
  {
    PlugInorder(c, t);
    PlugInorder(c, t');
    SameInorder(Plug(c, t), Plug(c, t'));
  }

  // ---------------------------------------------------------------- representation in the arena

  /** The links `m` spell out the subtree `t`, rooted at `id`, below `up`. */
  ghost predicate Rep(m: seq<Link>, t: Tree, id: nat, up: nat) {
    match t
    case Leaf => id == 0
    case Node(l, i, color, r) =>
      && id == i && 0 < i < |m|
      && m[i].up == up && m[i].color == color
      && Rep(m, l, m[i].left, i) && Rep(m, r, m[i].right, i)
  }

  /** The links `m` spell out the context `c`, whose hole is filled by the subtree at `hole`. */
  ghost predicate CtxRep(m: seq<Link>, c: Ctx, hole: nat) {
    match c
    case Top => true
    case InLeft(above, i, color, r) =>
      && 0 < i < |m|
      && m[i].up == ParentId(above) && m[i].color == color
      && m[i].left == hole && Rep(m, r, m[i].right, i) && CtxRep(m, above, i)
    case InRight(above, l, i, color) =>
      && 0 < i < |m|
      && m[i].up == ParentId(above) && m[i].color == color
      && m[i].right == hole && Rep(m, l, m[i].left, i) && CtxRep(m, above, i)
  }

  /** The subtree `t`, rooted at `id`, sits in the arena at the hole of `c`. */
  ghost predicate At(m: seq<Link>, c: Ctx, t: Tree, id: nat) {
    && CtxRep(m, c, id) && Rep(m, t, id, ParentId(c))
    && CtxDistinct(c) && Distinct(t) && Ids(t) !! CtxIds(c)
  }

  /** The arena may differ only at the entries `s`. */
  ghost predicate SameOutside(m: seq<Link>, m': seq<Link>, s: set<nat>) {
    |m| == |m'| && forall i :: 0 < i < |m| && i !in s ==> m[i] == m'[i]
  }

  lemma {:induction false} RepFrame(m: seq<Link>, m': seq<Link>, t: Tree, id: nat, up: nat)
    requires Rep(m, t, id, up)
    requires |m| <= |m'| && forall i :: i in Ids(t) && 0 < i < |m| ==> m'[i] == m[i]
    ensures Rep(m', t, id, up)
  {
    match t
    case Leaf =>
    case Node(l, i, _, r) =>
      assert i in Ids(t);
      RepFrame(m, m', l, m[i].left, i);
      RepFrame(m, m', r, m[i].right, i);
  }

  lemma {:induction false} CtxRepFrame(m: seq<Link>, m': seq<Link>, c: Ctx, hole: nat)
    requires CtxRep(m, c, hole)
    requires |m| <= |m'| && forall i :: i in CtxIds(c) && 0 < i < |m| ==> m'[i] == m[i]
    ensures CtxRep(m', c, hole)
  {
    match c
    case Top =>
    case InLeft(above, i, _, r) =>
      assert i in CtxIds(c);
      RepFrame(m, m', r, m[i].right, i);
      CtxRepFrame(m, m', above, i);
    case InRight(above, l, i, _) =>
      assert i in CtxIds(c);
      RepFrame(m, m', l, m[i].left, i);
      CtxRepFrame(m, m', above, i);
  }

  /** The same context with another filling: only the link just above the hole is rewritten. */
  lemma CtxRehang(m: seq<Link>, m': seq<Link>, c: Ctx, hole: nat, hole': nat)
    requires CtxRep(m, c, hole) && CtxDistinct(c)
    requires |m| <= |m'| && forall i :: i in CtxIds(c) && 0 < i < |m| && i != ParentId(c) ==> m'[i] == m[i]
    requires c.InLeft? ==> m'[c.id] == m[c.id].(left := hole')
    requires c.InRight? ==> m'[c.id] == m[c.id].(right := hole')
    ensures CtxRep(m', c, hole')
  {
    match c
    case Top =>
    case InLeft(above, i, _, r) =>
      RepFrame(m, m', r, m[i].right, i);
      CtxRepFrame(m, m', above, i);
    case InRight(above, l, i, _) =>
      RepFrame(m, m', l, m[i].left, i);
      CtxRepFrame(m, m', above, i);
  }

  /** Every entry named by a represented tree is a proper entry of the arena. */
  lemma {:induction false} RepIds(m: seq<Link>, t: Tree, id: nat, up: nat)
    requires Rep(m, t, id, up)
    ensures forall i :: i in Ids(t) ==> 0 < i < |m|
  {
    match t
    case Leaf =>
    case Node(l, i, _, r) =>
      RepIds(m, l, m[i].left, i);
      RepIds(m, r, m[i].right, i);
  }

  /** A new entry `id` hung at a free side of the root of `t`. */
  lemma Hang(m: seq<Link>, m': seq<Link>, c: Ctx, t: Tree, id: nat, onLeft: bool)
    requires t.Node? && At(m, c, t, t.id) && (if onLeft then t.left.Leaf? else t.right.Leaf?)
    requires 0 < id < |m| && id !in Ids(Plug(c, t))
    requires SameOutside(m, m', {t.id, id}) && 0 < t.id < |m|
    requires m'[t.id] == if onLeft then m[t.id].(left := id) else m[t.id].(right := id)
    requires m'[id] == m[id].(up := t.id, left := 0, right := 0)
    ensures
      var c' := if onLeft then DownLeft(c, t) else DownRight(c, t);
      && Plug(c', Leaf) == Plug(c, t)
      && At(m', c', Node(Leaf, id, m[id].color, Leaf), id) && RootId(c', id) == RootId(c, t.id)
    ensures SameOutside(m, m', Ids(Plug(c, t)) + {id})
  {
    PlugIds(c, t);
    CtxRepFrame(m, m', c, t.id);
    RepFrame(m, m', t.left, m[t.id].left, t.id);
    RepFrame(m, m', t.right, m[t.id].right, t.id);
  }

  // ---------------------------------------------------------------- red-black shape

  ghost function BlackHeight(t: Tree): nat {
    match t
    case Leaf => 0
    case Node(l, _, color, _) => BlackHeight(l) + if color.Black? then 1 else 0
  }

  /** No red entry has a red child and all paths down carry the same number of black entries. */
  ghost predicate RedBlack(t: Tree) {
    match t
    case Leaf => true
    case Node(l, _, color, r) =>
      && RedBlack(l) && RedBlack(r) && BlackHeight(l) == BlackHeight(r)
      && (color.Red? ==> TreeColor(l).Black? && TreeColor(r).Black?)
  }

  /** `c` is part of a red-black tree once its hole holds a subtree of black height `n`. */
  ghost predicate CtxRedBlack(c: Ctx, n: nat) {
    match c
    case Top => true
    case InLeft(above, _, color, sibling) =>
      && RedBlack(sibling) && BlackHeight(sibling) == n
      && (color.Red? ==> TreeColor(sibling).Black? && ParentColor(above).Black?)
      && CtxRedBlack(above, n + if color.Black? then 1 else 0)
    case InRight(above, sibling, _, color) =>
      && RedBlack(sibling) && BlackHeight(sibling) == n
      && (color.Red? ==> TreeColor(sibling).Black? && ParentColor(above).Black?)
      && CtxRedBlack(above, n + if color.Black? then 1 else 0)
  }

  ghost predicate RedBlackRoot(t: Tree) {
    RedBlack(t) && TreeColor(t).Black?
  }

  lemma {:induction false} PlugRedBlack(c: Ctx, t: Tree)
    requires RedBlack(t) && CtxRedBlack(c, BlackHeight(t))
    requires TreeColor(t).Red? ==> ParentColor(c).Black?
    ensures RedBlackRoot(Plug(c, t))
  {
    match c
    case Top =>
    case InLeft(above, id, color, r) => PlugRedBlack(above, Node(t, id, color, r));
    case InRight(above, l, id, color) => PlugRedBlack(above, Node(l, id, color, t));
  }

  lemma {:induction false} PlugIds(c: Ctx, t: Tree)
    ensures Ids(Plug(c, t)) == CtxIds(c) + Ids(t)
  {
    match c
    case Top =>
    case InLeft(above, id, color, r) => PlugIds(above, Node(t, id, color, r));
    case InRight(above, l, id, color) => PlugIds(above, Node(l, id, color, t));
  }

  /** The subtree one step up, with the hole filled. */
  ghost function Up(c: Ctx, t: Tree): Tree
    requires !c.Top?
  {
    if c.InLeft? then Node(t, c.id, c.color, c.right) else Node(c.left, c.id, c.color, t)
  }

  ghost function DownLeft(c: Ctx, t: Tree): Ctx
    requires t.Node?
  {
    InLeft(c, t.id, t.color, t.right)
  }

  ghost function DownRight(c: Ctx, t: Tree): Ctx
    requires t.Node?
  {
    InRight(c, t.left, t.id, t.color)
  }

  lemma AtUp(m: seq<Link>, c: Ctx, t: Tree, id: nat)
    requires At(m, c, t, id) && !c.Top?
    ensures At(m, c.above, Up(c, t), c.id)
    ensures 0 < c.id < |m| && RootId(c.above, c.id) == RootId(c, id)
  {
  }

  lemma AtDown(m: seq<Link>, c: Ctx, t: Tree)
    requires t.Node? && At(m, c, t, t.id)
    ensures At(m, DownLeft(c, t), t.left, TreeId(t.left))
    ensures At(m, DownRight(c, t), t.right, TreeId(t.right))
    ensures 0 < t.id < |m| && m[t.id].left == TreeId(t.left) && m[t.id].right == TreeId(t.right)
    ensures m[t.id].up == ParentId(c) && m[t.id].color == t.color
  {
    assert Rep(m, t.left, m[t.id].left, t.id);
    assert Rep(m, t.right, m[t.id].right, t.id);
  }

  lemma AtRecolor(m: seq<Link>, c: Ctx, t: Tree, color: Color)
    requires t.Node? && At(m, c, t, t.id)
    ensures At(m[t.id := m[t.id].(color := color)], c, t.(color := color), t.id)
  {
    var m' := m[t.id := m[t.id].(color := color)];
    CtxRepFrame(m, m', c, t.id);
    RepFrame(m, m', t.left, m[t.id].left, t.id);
    RepFrame(m, m', t.right, m[t.id].right, t.id);
  }

  /** Seen from the top, a subtree in its context is the whole tree. */
  lemma {:induction false} AtTop(m: seq<Link>, c: Ctx, t: Tree, id: nat)
    requires At(m, c, t, id) && (t.Leaf? ==> !c.Top?)
    ensures At(m, Top, Plug(c, t), RootId(c, id))
  {
    match c
    case Top =>
    case InLeft(above, i, color, r) =>
      assert At(m, above, Node(t, i, color, r), i);
      AtTop(m, above, Node(t, i, color, r), i);
    case InRight(above, l, i, color) =>
      assert At(m, above, Node(l, i, color, t), i);
      AtTop(m, above, Node(l, i, color, t), i);
  }

  /** The parts of a red-black tree are a red-black subtree and a context that expects it. */
  lemma {:induction false} SplitRedBlack(c: Ctx, t: Tree)
    requires RedBlackRoot(Plug(c, t))
    ensures RedBlack(t) && CtxRedBlack(c, BlackHeight(t))
    ensures TreeColor(t).Red? ==> ParentColor(c).Black?
  {
    match c
    case Top =>
    case InLeft(above, id, color, r) => SplitRedBlack(above, Node(t, id, color, r));
    case InRight(above, l, id, color) => SplitRedBlack(above, Node(l, id, color, t));
  }

  // ---------------------------------------------------------------- key order

  ghost predicate InRange(hash: seq<nat>, s: seq<nat>) {
    forall i :: 0 <= i < |s| ==> s[i] < |hash|
  }

  /** The entries `s` have strictly increasing hashes. */
  ghost predicate Sorted(hash: seq<nat>, s: seq<nat>)
    requires InRange(hash, s)
  {
    forall i, j :: 0 <= i < j < |s| ==> hash[s[i]] < hash[s[j]]
  }

  ghost predicate AllBelow(hash: seq<nat>, s: seq<nat>, h: nat)
    requires InRange(hash, s)
  {
    forall i :: 0 <= i < |s| ==> hash[s[i]] < h
  }

  ghost predicate AllAbove(hash: seq<nat>, s: seq<nat>, h: nat)
    requires InRange(hash, s)
  {
    forall i :: 0 <= i < |s| ==> h < hash[s[i]]
  }

  /** An order split at one entry. */
  lemma SortedSplit(hash: seq<nat>, a: seq<nat>, x: nat, b: seq<nat>)
    requires InRange(hash, a + [x] + b)
    ensures InRange(hash, a) && InRange(hash, b) && x < |hash|
    ensures Sorted(hash, a + [x] + b) <==>
      Sorted(hash, a) && Sorted(hash, b) && AllBelow(hash, a, hash[x]) && AllAbove(hash, b, hash[x])
  {
    var s := a + [x] + b;
    assert forall i :: 0 <= i < |a| ==> s[i] == a[i];
    assert s[|a|] == x;
    assert forall i :: 0 <= i < |b| ==> s[|a| + 1 + i] == b[i];
    if Sorted(hash, a) && Sorted(hash, b) && AllBelow(hash, a, hash[x]) && AllAbove(hash, b, hash[x]) {
      forall i, j | 0 <= i < j < |s|
        ensures hash[s[i]] < hash[s[j]]
      {
        if i < |a| { assert hash[s[i]] < hash[x]; }
        if j > |a| { assert s[j] == b[j - |a| - 1] && hash[x] < hash[s[j]]; }
      }
    }
  }

  /** `h` falls strictly between the hashes read before and after the hole of `c`. */
  ghost predicate Between(hash: seq<nat>, c: Ctx, h: nat) {
    && InRange(hash, Before(c)) && InRange(hash, After(c))
    && AllBelow(hash, Before(c), h) && AllAbove(hash, After(c), h)
  }

  /** One step of the search for `h`. */
  lemma Descend(hash: seq<nat>, c: Ctx, t: Tree, h: nat)
    requires t.Node? && InRange(hash, Inorder(Plug(c, t))) && Sorted(hash, Inorder(Plug(c, t)))
    requires Between(hash, c, h)
    ensures t.id < |hash|
    ensures h < hash[t.id] ==> Between(hash, DownLeft(c, t), h)
    ensures hash[t.id] < h ==> Between(hash, DownRight(c, t), h)
  {
    var a, l, r, b := Before(c), Inorder(t.left), Inorder(t.right), After(c);
    PlugInorder(c, t);
    Reassociate(a, l, [t.id], r, b);
    assert Inorder(Plug(c, t)) == a + l + [t.id] + (r + b);
    SortedSplit(hash, a + l, t.id, r + b);
    AllConcat(hash, a, l, h);
    AllConcat(hash, a, l, hash[t.id]);
    AllConcat(hash, r, b, h);
    AllConcat(hash, r, b, hash[t.id]);
    if h < hash[t.id] {
      AllConcat(hash, [t.id] + r, b, h);
      AllConcat(hash, [t.id], r, h);
    } else if hash[t.id] < h {
      AllConcat(hash, a + l, [t.id], h);
    }
  }

  lemma AllConcat(hash: seq<nat>, a: seq<nat>, b: seq<nat>, h: nat)
    ensures InRange(hash, a + b) <==> InRange(hash, a) && InRange(hash, b)
    ensures InRange(hash, a + b) ==> (AllBelow(hash, a + b, h) <==> AllBelow(hash, a, h) && AllBelow(hash, b, h))
    ensures InRange(hash, a + b) ==> (AllAbove(hash, a + b, h) <==> AllAbove(hash, a, h) && AllAbove(hash, b, h))
  {
    var s := a + b;
    assert forall i :: 0 <= i < |a| ==> s[i] == a[i];
    assert forall i :: 0 <= i < |b| ==> s[|a| + i] == b[i];
    assert forall i :: |a| <= i < |s| ==> s[i] == b[i - |a|];
  }

  /** At an empty hole between the neighbours of `h`, no entry of the tree has that hash. */
  lemma Absent(hash: seq<nat>, c: Ctx, h: nat)
    requires InRange(hash, Inorder(Plug(c, Leaf))) && Between(hash, c, h)
    ensures forall i :: i in Ids(Plug(c, Leaf)) ==> i < |hash| && hash[i] != h
  {
    PlugInorder(c, Leaf);
    InorderIds(Plug(c, Leaf));
  }

  lemma TreeNode(hash: seq<nat>, m: seq<Link>, c: Ctx, t: Tree, h: nat)
    requires t.Node? && At(m, c, t, t.id)
    requires InRange(hash, Inorder(Plug(c, t))) && Sorted(hash, Inorder(Plug(c, t))) && Between(hash, c, h)
    ensures 0 < t.id < |m| && t.id < |hash| && t.id in Ids(Plug(c, t))
    ensures m[t.id].left == TreeId(t.left) && m[t.id].right == TreeId(t.right)
    ensures t.left.Node? <==> TreeId(t.left) != 0
    ensures t.right.Node? <==> TreeId(t.right) != 0
    ensures At(m, DownLeft(c, t), t.left, TreeId(t.left)) && At(m, DownRight(c, t), t.right, TreeId(t.right))
    ensures h < hash[t.id] ==> Between(hash, DownLeft(c, t), h)
    ensures hash[t.id] < h ==> Between(hash, DownRight(c, t), h)
  {
    AtDown(m, c, t);
    Descend(hash, c, t, h);
    PlugIds(c, t);
  }

  lemma SortedParts(hash: seq<nat>, a: seq<nat>, b: seq<nat>)
    requires InRange(hash, a + b) && Sorted(hash, a + b)
    ensures InRange(hash, a) && InRange(hash, b) && Sorted(hash, a) && Sorted(hash, b)
  {
    assert forall i :: 0 <= i < |a| ==> (a + b)[i] == a[i];
    assert forall i :: 0 <= i < |b| ==> (a + b)[|a| + i] == b[i];
  }

  /** Filling an empty hole with an entry whose hash belongs there keeps the order. */
  lemma FilledSorted(hash: seq<nat>, c: Ctx, id: nat, color: Color)
    requires InRange(hash, Inorder(Plug(c, Leaf))) && Sorted(hash, Inorder(Plug(c, Leaf)))
    requires id < |hash| && Between(hash, c, hash[id])
    ensures
      var s := Inorder(Plug(c, Node(Leaf, id, color, Leaf)));
      InRange(hash, s) && Sorted(hash, s) && Ids(Plug(c, Node(Leaf, id, color, Leaf))) == Ids(Plug(c, Leaf)) + {id}
  {
    hide Plug, Before, After, Inorder, Ids, Sorted;
    var t := Node(Leaf, id, color, Leaf);
    PlugInorder(c, Leaf);
    PlugInorder(c, t);
    PlugIds(c, Leaf);
    PlugIds(c, t);
    SingleNode(id, color);
    assert Before(c) + [] + After(c) == Before(c) + After(c);
    InsertedSorted(hash, Before(c), id, After(c));
  }

  lemma SingleNode(id: nat, color: Color)
    ensures Inorder(Leaf) == [] && Ids(Leaf) == {}
    ensures Inorder(Node(Leaf, id, color, Leaf)) == [id] && Ids(Node(Leaf, id, color, Leaf)) == {id}
  {
  }

  lemma InsertedSorted(hash: seq<nat>, a: seq<nat>, x: nat, b: seq<nat>)
    requires InRange(hash, a + b) && Sorted(hash, a + b) && InRange(hash, a) && InRange(hash, b) && x < |hash|
    requires AllBelow(hash, a, hash[x]) && AllAbove(hash, b, hash[x])
    ensures InRange(hash, a + [x] + b) && Sorted(hash, a + [x] + b)
  {
    SortedParts(hash, a, b);
    assert InRange(hash, a + [x] + b);
    SortedSplit(hash, a, x, b);
  }
}
