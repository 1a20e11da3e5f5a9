/** The hash index of the metadata store: `up`/`left`/`right`/`color` links kept as a
    red-black tree over path hashes, with a doubly linked chain per colliding hash. */
module HashIndex {
  import opened Balance
  import opened IndexTree
  import opened Chains
  import opened DoubleBlack
  import opened Removal
  import opened Renaming
  import opened Rotations
  import opened Repairs
  import opened StaleLinks

  class Index {
    var hash: seq<nat>
    var node: seq<Link>
    var cnext: seq<nat>
    var cprev: seq<nat>
    var root: nat
    ghost var tree: Tree
    ghost var chains: map<nat, seq<nat>>

    /** A freshly formatted index of `n` entries, with entry 1 as its only node. */
    constructor (n: nat, h: nat)
      requires n > 1
      ensures Valid() && Indexed() == {1} && |hash| == n && hash[1] == h
      ensures forall i :: 1 < i < n ==> Pristine(i)
    {
      hash := seq(n, i => if i == 1 then h else 0);
      node := seq(n, i => Link(0, 0, 0, Black));
      cnext := seq(n, i => 0);
      cprev := seq(n, i => 0);
      root := 1;
      tree := Node(Leaf, 1, Black, Leaf);
      chains := map[h := [1]];
      new;
      Formatted(hash, node, cnext, cprev, root, tree, chains);
    }

    /** `id` is indexed: it is listed under its own hash. */
    ghost predicate Member(id: nat)
      reads this
    {
      Listed(hash, chains, id)
    }

    /** The indexed entries. */
    ghost function Indexed(): set<nat>
      reads this
    {
      Members(hash, chains)
    }

    /** The entries with hash `h`, in the order of their chain. */
    ghost function Chain(h: nat): seq<nat>
      reads this
    {
      if h in chains then chains[h] else []
    }

    ghost predicate TreeValid()
      reads this
    {
      TreeOk(hash, node, root, tree)
    }

    ghost predicate Valid()
      reads this
    {
      TreeValid() && Chained(hash, node, cnext, cprev, Ids(tree), chains)
    }

    method RotateLeft(x: nat)
      requires 0 < x < |node|
      requires RotatableLeft(node, x)
      modifies this`node, this`root
      ensures old(node)[x].right == 0 ==> node == old(node) && root == old(root)
      ensures old(node)[x].right != 0 ==> RotateLeftLinks(old(node), node, x)
      ensures old(node)[x].right != 0 ==>
        root == if old(node)[x].up == 0 then old(node)[x].right else old(root)
    {
      if node[x].right == 0 { return; }
      var y := node[x].right;
      node := node[x := node[x].(right := node[y].left)];
      if node[y].left != 0 {
        node := node[node[y].left := node[node[y].left].(up := x)];
      }
      node := node[y := node[y].(up := node[x].up)];
      if node[x].up == 0 {
        root := y;
      } else if x == node[node[x].up].left {
        node := node[node[x].up := node[node[x].up].(left := y)];
      } else {
        node := node[node[x].up := node[node[x].up].(right := y)];
      }
      node := node[y := node[y].(left := x)];
      node := node[x := node[x].(up := y)];
    }

    /** `RotateLeft` seen on the tree: `t` sits at the hole of `c` before, the turned `t` after. */
    method RotateLeftIn(x: nat, ghost c: Ctx, ghost t: Tree)
      requires t.Node? && t.id == x && At(node, c, t, x) && root == RootId(c, x)
      modifies this`node, this`root
      ensures At(node, c, RotatedLeft(t), RotatedLeft(t).id)
      ensures root == RootId(c, RotatedLeft(t).id)
      ensures SameOutside(old(node), node, Ids(Plug(c, t)))
    {
      RotateLeftLocal(node, c, t);
      ghost var m := node;
      RotateLeft(x);
      if t.right.Node? {
        RotateLeftAt(m, node, c, t);
      }
    }

    method RotateRight(x: nat)
      requires 0 < x < |node|
      requires RotatableRight(node, x)
      modifies this`node, this`root
      ensures old(node)[x].left == 0 ==> node == old(node) && root == old(root)
      ensures old(node)[x].left != 0 ==> RotateRightLinks(old(node), node, x)
      ensures old(node)[x].left != 0 ==>
        root == if old(node)[x].up == 0 then old(node)[x].left else old(root)
    {
      if node[x].left == 0 { return; }
      var y := node[x].left;
      node := node[x := node[x].(left := node[y].right)];
      if node[y].right != 0 {
        node := node[node[y].right := node[node[y].right].(up := x)];
      }
      node := node[y := node[y].(up := node[x].up)];
      if node[x].up == 0 {
        root := y;
      } else if x == node[node[x].up].left {
        node := node[node[x].up := node[node[x].up].(left := y)];
      } else {
        node := node[node[x].up := node[node[x].up].(right := y)];
      }
      node := node[y := node[y].(right := x)];
      node := node[x := node[x].(up := y)];
    }

    /** `RotateRight` seen on the tree: `t` sits at the hole of `c` before, the turned `t` after. */
    method RotateRightIn(x: nat, ghost c: Ctx, ghost t: Tree)
      requires t.Node? && t.id == x && At(node, c, t, x) && root == RootId(c, x)
      modifies this`node, this`root
      ensures At(node, c, RotatedRight(t), RotatedRight(t).id)
      ensures root == RootId(c, RotatedRight(t).id)
      ensures SameOutside(old(node), node, Ids(Plug(c, t)))
    {
      RotateRightLocal(node, c, t);
      ghost var m := node;
      RotateRight(x);
      if t.left.Node? {
        RotateRightAt(m, node, c, t);
      }
    }

    /** The other child of the parent, 0 if there is none. */
    function Brother(id: nat): nat
      requires id < |node| && node[id].up < |node|
      reads this
    {
      if node[id].up == 0 then 0
      else if node[node[id].up].left == id then node[node[id].up].right
      else node[node[id].up].left
    }

    /** Turns the grandfather of the outer grandchild `id` and swaps the colours of father and
        grandfather; `t` is the subtree of the grandfather. */
    method RepairHashStep42(id: nat, ghost onLeft: bool, ghost c: Ctx, ghost t: Tree)
      requires Outer(t, onLeft, id) && At(node, c, t, t.id) && root == RootId(c, t.id)
      modifies this`node, this`root
      ensures At(node, c, Lifted(t, onLeft), Lifted(t, onLeft).id)
      ensures root == RootId(c, Lifted(t, onLeft).id)
      ensures SameOutside(old(node), node, Ids(Plug(c, t)))
    {
      OuterLinks(node, c, t, onLeft, id);
      var father := node[id].up;
      var grandfather := node[father].up;
      if id == node[father].left {
        RotateRightIn(grandfather, c, t);
      } else {
        RotateLeftIn(grandfather, c, t);
      }
      LiftedLinks(node, c, t, onLeft);
      PlugIds(c, t);
      node := node[father := node[father].(color := Black)];
      node := node[grandfather := node[grandfather].(color := Red)];
    }

    /** Turns an inner grandchild outwards. Returns the outer one. */
    method RepairHashStep41(id: nat, ghost c: Ctx, ghost t: Tree) returns (sibling: nat)
      requires t.Node? && t.id == id && At(node, c, t, id) && root == RootId(c, id)
      requires !c.Top? && !c.above.Top?
      modifies this`node, this`root
      ensures var tg := TurnedOutwards(c, t);
        && At(node, c.above.above, tg, tg.id) && root == RootId(c.above.above, tg.id)
        && sibling == OuterId(c, t)
      ensures SameOutside(old(node), node, Ids(Plug(c, t)))
    {
      ghost var cf, tf := c.above, Up(c, t);
      GrandLinks(node, c, t);
      var father := node[id].up;
      var grandfather := node[father].up;
      sibling := id;
      if node[grandfather].left != 0 && id == node[node[grandfather].left].right {
        RotateLeftIn(father, cf, tf);
        AtDown(node, cf, RotatedLeft(tf));
        AtUp(node, cf, RotatedLeft(tf), id);
        sibling := node[id].left;
      } else if node[grandfather].right != 0 && id == node[node[grandfather].right].left {
        RotateRightIn(father, cf, tf);
        AtDown(node, cf, RotatedRight(tf));
        AtUp(node, cf, RotatedRight(tf), id);
        sibling := node[id].right;
      }
    }

    /** The uncle of a red entry with a red father is black. */
    method RepairHashStep4(id: nat, ghost c: Ctx, ghost t: Tree) returns (ghost t': Tree)
      requires t.Node? && t.id == id && t.color.Red? && !c.Top? && c.color.Red? && !c.above.Top?
      requires At(node, c, t, id) && root == RootId(c, id)
      requires RedBlack(t) && CtxRedBlack(c, BlackHeight(t)) && TreeColor(Uncle(c)).Black?
      modifies this`node, this`root
      ensures At(node, Top, t', root) && RedBlackRoot(t')
      ensures Inorder(t') == Inorder(Plug(c, t))
      ensures SameOutside(old(node), node, Ids(Plug(c, t)))
    {
      TurnedOutwardsRedBlack(c, t);
      TurnedOutwardsInorder(c, t);
      ghost var tg, onLeft := TurnedOutwards(c, t), c.above.InLeft?;
      var sibling := RepairHashStep41(id, c, t);
      RepairHashStep42(sibling, onLeft, c.above.above, tg);
      t' := Finish(node, c.above.above, Lifted(tg, onLeft), Lifted(tg, onLeft).id);
    }

    /** The father and the uncle of a red entry are red: both turn black, the grandfather red. */
    method RepairHashStep3(father: nat, uncle: nat, grandfather: nat, ghost c: Ctx, ghost t: Tree)
      requires t.Node? && t.left.Node? && t.right.Node? && At(node, c, t, t.id)
      requires grandfather == t.id && {father, uncle} == {t.left.id, t.right.id}
      modifies this`node
      ensures At(node, c, Recolored(t), grandfather)
      ensures SameOutside(old(node), node, Ids(Plug(c, t)))
    {
      FamilyRecolor(node, c, t);
      node := node[father := node[father].(color := Black)];
      node := node[uncle := node[uncle].(color := Black)];
      node := node[grandfather := node[grandfather].(color := Red)];
      RecoloredAt(old(node), node, c, t);
    }

    /** Restores the red-black shape after the red entry `id` was hung below a possibly red father:
        recolours upwards while the uncle is red, ends with at most two rotations. */
    method RepairHash(id: nat, ghost c: Ctx, ghost t: Tree) returns (ghost t': Tree)
      requires t.Node? && t.id == id && t.color.Red?
      requires At(node, c, t, id) && root == RootId(c, id)
      requires RedBlack(t) && CtxRedBlack(c, BlackHeight(t))
      modifies this`node, this`root
      ensures At(node, Top, t', root) && RedBlackRoot(t')
      ensures Inorder(t') == Inorder(Plug(c, t))
      ensures SameOutside(old(node), node, Ids(Plug(c, t)))
      decreases c
    {
      hide Sorted, Before, After;
      RepairLinks(node, c, t);
      if node[id].up == 0 {
        AtRecolor(node, c, t, Black);
        node := node[id := node[id].(color := Black)];
        t' := t.(color := Black);
        return;
      }
      var father := node[id].up;
      if node[father].color == Black {
        t' := Finish(node, c, t, id);
        return;
      }
      var uncle := Brother(father);
      var grandfather := node[father].up;
      if uncle != 0 && node[uncle].color == Red {
        RecoloredRedBlack(c, t);
        RecoloredInorder(node, c, t);
        RepairHashStep3(father, uncle, grandfather, c.above.above, Up(c.above, Up(c, t)));
        t' := RepairHash(grandfather, c.above.above, Recolored(Up(c.above, Up(c, t))));
      } else {
        t' := RepairHashStep4(id, c, t);
      }
    }

    /** Walks down from the root while there is a subtree on the side of `h`; `steps` counts the
        tree nodes looked at. */
    method SearchTree(h: nat) returns (current: nat, ghost c: Ctx, ghost t: Tree, ghost steps: nat)
      requires TreeValid()
      ensures Plug(c, t) == tree && t.Node? && t.id == current && Between(hash, c, h)
      ensures At(node, c, t, current) && root == RootId(c, current)
      ensures 0 < current < |hash| && current in Ids(tree)
      ensures h < hash[current] ==> t.left.Leaf? && Between(hash, DownLeft(c, t), h)
      ensures hash[current] < h ==> t.right.Leaf? && Between(hash, DownRight(c, t), h)
      ensures hash[current] != h ==> forall i :: i in Ids(tree) ==> i < |hash| && hash[i] != h
      ensures steps <= Height(tree)
    {
      current, c, t, steps := root, Top, tree, 0;
      while true
        invariant Plug(c, t) == tree && t.Node? && t.id == current && Between(hash, c, h)
        invariant At(node, c, t, current) && root == RootId(c, current)
        invariant steps == Depth(c)
        decreases t
      {
        TreeNode(hash, node, c, t, h);
        DepthBounded(c, t);
        steps := steps + 1;
        if h < hash[current] && node[current].left != 0 {
          c, t := DownLeft(c, t), t.left;
          current := node[current].left;
        } else if hash[current] < h && node[current].right != 0 {
          c, t := DownRight(c, t), t.right;
          current := node[current].right;
        } else {
          if h < hash[current] {
            Absent(hash, DownLeft(c, t), h);
          } else if hash[current] < h {
            Absent(hash, DownRight(c, t), h);
          }
          return;
        }
      }
    }

    /** Appends `id` to the chain that starts at the tree node `head`. */
    method AppendCollider(id: nat, head: nat, ghost chain: seq<nat>)
      requires |hash| == |cnext| == |cprev| && 0 < id < |hash|
      requires ChainLinks(hash, cnext, cprev, hash[id], chain) && head == chain[0]
      modifies this`cnext, this`cprev
      ensures cnext == old(cnext)[chain[|chain| - 1] := id]
      ensures cprev == old(cprev)[id := chain[|chain| - 1]]
    {
      var current := head;
      ghost var k := 0;
      while cnext[current] != 0
        invariant 0 <= k < |chain| && current == chain[k]
        decreases |chain| - k
      {
        current := cnext[current];
        k := k + 1;
      }
      cnext := cnext[current := id];
      cprev := cprev[id := current];
    }

    /** Links `id` below the tree node `current`, on the side of its hash. */
    method HangBelow(id: nat, current: nat, ghost c: Ctx, ghost t: Tree) returns (ghost c': Ctx)
      requires |hash| == |node| && 0 < id < |hash| && 0 < current < |hash|
      requires t.Node? && t.id == current && At(node, c, t, current) && id !in Ids(Plug(c, t))
      requires hash[id] < hash[current] ==> t.left.Leaf?
      requires hash[current] <= hash[id] ==> t.right.Leaf?
      modifies this`node
      ensures c' == if hash[id] < hash[current] then DownLeft(c, t) else DownRight(c, t)
      ensures |node| == |hash| && At(node, c', Node(Leaf, id, old(node)[id].color, Leaf), id)
      ensures RootId(c', id) == RootId(c, current) && Plug(c', Leaf) == Plug(c, t)
      ensures node[id].color == old(node)[id].color
      ensures SameOutside(old(node), node, Ids(Plug(c, t)) + {id})
    {
      node := node[id := node[id].(up := 0, left := 0, right := 0)];
      if hash[id] < hash[current] {
        node := node[current := node[current].(left := id)];
      } else {
        node := node[current := node[current].(right := id)];
      }
      node := node[id := node[id].(up := current)];
      PlugIds(c, t);
      Hang(old(node), node, c, t, id, hash[id] < hash[current]);
      c' := if hash[id] < hash[current] then DownLeft(c, t) else DownRight(c, t);
    }

    /** Links `id` into the index: at the end of the chain of its hash if there is one, else
        below a tree node with a free side. */
    method DoInsertHash(id: nat) returns (ghost c: Ctx, collides: bool)
      requires Valid() && 0 < id < |hash| && !Member(id)
      modifies this`node, this`cnext, this`cprev
      ensures |node| == |hash| && collides == (hash[id] in chains) == (node[id].up == 0)
      ensures collides ==>
        var chain := chains[hash[id]]; var last := chain[|chain| - 1];
        && cnext == old(cnext)[last := id] && cprev == old(cprev)[id := last]
        && node == old(node)[id := Link(0, 0, 0, old(node)[id].color)]
      ensures !collides ==>
        && cnext == old(cnext) && cprev == old(cprev)
        && Plug(c, Leaf) == tree && Between(hash, c, hash[id])
        && At(node, c, Node(Leaf, id, old(node)[id].color, Leaf), id) && root == RootId(c, id)
        && SameOutside(old(node), node, Ids(tree) + {id})
    {
      ghost var t, steps;
      var current;
      current, c, t, steps := SearchTree(hash[id]);
      collides := hash[id] == hash[current];
      if hash[id] == hash[current] {
        node := node[id := node[id].(up := 0, left := 0, right := 0)];
        AppendCollider(id, current, chains[hash[id]]);
      } else {
        c := HangBelow(id, current, c, t);
      }
    }

    /** Repairs the tree around `id`, just hung at the hole of `c`. */
    method RepairInserted(id: nat, ghost c: Ctx, ghost color: Color)
      requires |hash| == |node| && 0 < id < |hash|
      requires Plug(c, Leaf) == tree && tree.Node? && RedBlackRoot(tree)
      requires InRange(hash, Inorder(tree)) && Sorted(hash, Inorder(tree)) && Between(hash, c, hash[id])
      requires At(node, c, Node(Leaf, id, color, Leaf), id) && root == RootId(c, id)
      modifies this`node, this`root, this`tree
      ensures TreeValid() && Ids(tree) == Ids(old(tree)) + {id}
      ensures SameOutside(old(node), node, Ids(old(tree)) + {id})
    {
      AtRecolor(node, c, Node(Leaf, id, color, Leaf), Red);
      node := node[id := node[id].(color := Red)];
      ghost var t := Node(Leaf, id, Red, Leaf);
      SplitRedBlack(c, Leaf);
      FilledSorted(hash, c, id, Red);
      tree := RepairHash(id, c, t);
      SameInorder(tree, Plug(c, t));
    }

    /** The chain links `id` may still carry do no harm: it has no next, and its previous is about to
        be replaced. */
    ghost predicate Insertable(id: nat)
      requires id < |hash| && id < |cnext| && id < |cprev|
      reads this
    {
      cnext[id] == 0 && (cprev[id] == 0 || hash[id] in chains)
    }

    /** Links `id` into the index and repairs the tree if it became a tree node. */
    method InsertAndRepair(id: nat) returns (clean: bool)
      requires Valid() && 0 < id < |hash| && !Member(id)
      modifies this`node, this`cnext, this`cprev, this`root, this`tree, this`chains
      ensures clean <==> old(Insertable(id))
      ensures old(Insertable(id)) ==> Valid()
      ensures !old(Insertable(id)) ==> !Indexes(hash, node, cnext, cprev, root, old(Indexed()) + {id})
      ensures chains == Added(hash, old(chains), id)
      ensures hash[id] in old(chains) ==> tree == old(tree) && root == old(root)
      ensures hash[id] !in old(chains) ==> Ids(tree) == Ids(old(tree)) + {id}
      ensures OthersUntouched(hash, old(chains), id, old(node), node, old(cnext), cnext, old(cprev), cprev)
    {
      hide Chained, Indexes, OthersUntouched, Inorder, Sorted, InRange, RedBlackRoot, Between, Plug, Ids, Added;
      Lengths(hash, node, cnext, cprev, Ids(tree), chains);
      var next, previous := cnext[id], cprev[id];
      ghost var c;
      var collides;
      c, collides := DoInsertHash(id);
      clean := next == 0 && (previous == 0 || collides);
      if node[id].up == 0 {
        node := node[id := node[id].(color := Black)];
        OutsideIrrelevant(hash, old(node), node, old(cnext), old(cprev), root, tree, chains, id);
        FollowerIndexed(hash, old(node), node, old(cnext), old(cprev), root, Ids(tree), chains, id);
      } else {
        RepairInserted(id, c, old(node)[id].color);
        HeadIndexed(hash, old(node), node, cnext, cprev, root, Ids(old(tree)), chains, id);
      }
      chains := Added(hash, chains, id);
    }

    /** Adds `id` to the index: at the end of the chain of its hash, leaving the tree untouched, or
        as a new tree node. The index is well-formed afterwards, as `clean` tells, exactly if no stale
        chain link stood in the way. */
    method InsertHash(id: nat) returns (clean: bool)
      requires Valid() && 0 < id < |hash| && !Member(id)
      modifies this`node, this`cnext, this`cprev, this`root, this`tree, this`chains
      ensures Indexes(hash, node, cnext, cprev, root, old(Indexed()) + {id}) == clean == old(Insertable(id))
      ensures old(Insertable(id)) ==> Valid() && Indexed() == old(Indexed()) + {id}
      ensures chains == Added(hash, old(chains), id)
      ensures hash[id] in old(chains) ==> tree == old(tree) && root == old(root)
      ensures hash[id] !in old(chains) ==> Ids(tree) == Ids(old(tree)) + {id}
      ensures OthersUntouched(hash, old(chains), id, old(node), node, old(cnext), cnext, old(cprev), cprev)
    {
      AddedMembers(hash, node, cnext, cprev, Ids(tree), chains, id);
      clean := InsertAndRepair(id);
    }

    /** Turns the parent of the hole below the sibling. */
    method SinkParent(ghost c: Ctx, ghost t: Tree, up: nat, brotherIsLeft: bool)
      requires !c.Top? && c.id == up && c.InRight? == brotherIsLeft && Sibling(c).Node? && t.Node?
      requires At(node, c, t, t.id) && root == RootId(c, t.id)
      modifies this`node, this`root
      ensures At(node, Sunk(c), t, t.id) && root == RootId(Sunk(c), t.id) && SamePlace(c, Sunk(c))
      ensures SameOutside(old(node), node, CtxIds(c) + Ids(t))
    {
      AtUp(node, c, t, t.id);
      PlugIds(c, t);
      if brotherIsLeft {
        RotateRightIn(up, c.above, Up(c, t));
      } else {
        RotateLeftIn(up, c.above, Up(c, t));
      }
      AtSunk(node, c, t);
    }

    method FixRedBrother(ghost c: Ctx, ghost t: Tree, up: nat, brother: nat, brotherIsLeft: bool)
      requires !c.Top? && c.id == up && c.InRight? == brotherIsLeft
      requires Sibling(c).Node? && Sibling(c).id == brother && t.Node?
      requires At(node, c, t, t.id) && root == RootId(c, t.id)
      modifies this`node, this`root
      ensures At(node, RedSiblingTurned(c), t, t.id) && root == RootId(RedSiblingTurned(c), t.id)
      ensures SameOutside(old(node), node, CtxIds(c) + Ids(t))
    {
      AtSiblingRecolor(node, c, t, t.id, Black);
      ghost var c1 := WithSibling(c, Sibling(c).(color := Black));
      AtParentRecolor(node[brother := node[brother].(color := Black)], c1, t, t.id, Red);
      ghost var c2 := c1.(color := Red);
      assert up != brother by { AtCross(node, c, t, t.id); assert brother in Ids(Sibling(c)); }
      node := node[up := node[up].(color := Red)];
      node := node[brother := node[brother].(color := Black)];
      assert node == old(node)[brother := old(node)[brother].(color := Black)][up := old(node)[up].(color := Red)];
      SinkParent(c2, t, up, brotherIsLeft);
    }

    /** A red near child of the black brother: recolour, turn the brother, then the parent. */
    method FixNearNephew(ghost c: Ctx, ghost t: Tree, up: nat, brother: nat, nephew: nat, brotherIsLeft: bool)
      requires !c.Top? && c.id == up && c.InRight? == brotherIsLeft
      requires Sibling(c).Node? && Sibling(c).id == brother && t.Node?
      requires Nephew(c, true).Node? && Nephew(c, true).id == nephew
      requires At(node, c, t, t.id) && root == RootId(c, t.id)
      modifies this`node, this`root
      ensures At(node, NearTurned(c), t, t.id) && root == RootId(NearTurned(c), t.id) && SamePlace(c, NearTurned(c))
      ensures SameOutside(old(node), node, CtxIds(c) + Ids(t))
    {
      AtCross(node, c, t, t.id);
      AtNephewRecolor(node, c, t, t.id, true, c.color);
      node := node[nephew := node[nephew].(color := node[up].color)];
      ghost var c1 := WithNephew(c, true, Nephew(c, true).(color := c.color));
      AtCross(node, c1, t, t.id);
      if brotherIsLeft {
        RotateLeftIn(brother, Cross(c1, t), Sibling(c1));
      } else {
        RotateRightIn(brother, Cross(c1, t), Sibling(c1));
      }
      ghost var s := if brotherIsLeft then RotatedLeft(Sibling(c1)) else RotatedRight(Sibling(c1));
      ghost var c2 := WithSibling(c1, s);
      TurnedSibling(node, c1, t, s);
      SinkParent(c2, t, up, brotherIsLeft);
      AtParentRecolor(node, Sunk(c2), t, t.id, Black);
      node := node[up := node[up].(color := Black)];
    }

    /** A red far child of the black brother: recolour and turn the parent. */
    method FixFarNephew(ghost c: Ctx, ghost t: Tree, up: nat, brother: nat, nephew: nat, brotherIsLeft: bool)
      requires !c.Top? && c.id == up && c.InRight? == brotherIsLeft
      requires Sibling(c).Node? && Sibling(c).id == brother && t.Node?
      requires Nephew(c, false).Node? && Nephew(c, false).id == nephew
      requires At(node, c, t, t.id) && root == RootId(c, t.id)
      modifies this`node, this`root
      ensures At(node, FarTurned(c), t, t.id) && root == RootId(FarTurned(c), t.id) && SamePlace(c, FarTurned(c))
      ensures SameOutside(old(node), node, CtxIds(c) + Ids(t))
    {
      AtCross(node, c, t, t.id);
      AtDown(node, Cross(c, t), Sibling(c));
      AtNephewRecolor(node, c, t, t.id, false, Sibling(c).color);
      node := node[nephew := node[nephew].(color := node[brother].color)];
      ghost var c1 := WithNephew(c, false, Nephew(c, false).(color := Sibling(c).color));
      AtCross(node, c1, t, t.id);
      AtSiblingRecolor(node, c1, t, t.id, c.color);
      node := node[brother := node[brother].(color := node[up].color)];
      ghost var c2 := WithSibling(c1, Sibling(c1).(color := c.color));
      SinkParent(c2, t, up, brotherIsLeft);
      AtParentRecolor(node, Sunk(c2), t, t.id, Black);
      node := node[up := node[up].(color := Black)];
    }

    /** The brother is black: a red nephew absorbs the missing black; `fixed` tells whether there was one. */
    method FixNephews(ghost c: Ctx, ghost t: Tree, ghost n: nat, up: nat, brother: nat, brotherIsLeft: bool)
      returns (fixed: bool, ghost c': Ctx)
      requires !c.Top? && c.id == up && c.InRight? == brotherIsLeft
      requires Sibling(c).Node? && Sibling(c).id == brother && Sibling(c).color.Black? && t.Node?
      requires At(node, c, t, t.id) && root == RootId(c, t.id) && CtxRedBlack(c, n + 1)
      modifies this`node, this`root
      ensures fixed ==>
        && At(node, c', t, t.id) && root == RootId(c', t.id)
        && CtxRedBlack(c', n) && SamePlace(c, c')
      ensures !fixed ==> node == old(node) && root == old(root)
      ensures !fixed ==> TreeColor(Nephew(c, true)).Black? && TreeColor(Nephew(c, false)).Black?
      ensures SameOutside(old(node), node, CtxIds(c) + Ids(t))
    {
      FixLinks(node, c, t, n);
      var hasLeftRedChild := node[brother].left != 0 && node[node[brother].left].color == Red;
      var hasRightRedChild := node[brother].right != 0 && node[node[brother].right].color == Red;
      fixed := true;
      if hasLeftRedChild {
        if brotherIsLeft {
          FarTurnedRedBlack(c, n);
          FixFarNephew(c, t, up, brother, node[brother].left, brotherIsLeft);
          c' := FarTurned(c);
        } else {
          NearTurnedRedBlack(c, n);
          FixNearNephew(c, t, up, brother, node[brother].left, brotherIsLeft);
          c' := NearTurned(c);
        }
      } else if hasRightRedChild {
        if brotherIsLeft {
          NearTurnedRedBlack(c, n);
          FixNearNephew(c, t, up, brother, node[brother].right, brotherIsLeft);
          c' := NearTurned(c);
        } else {
          FarTurnedRedBlack(c, n);
          FixFarNephew(c, t, up, brother, node[brother].right, brotherIsLeft);
          c' := FarTurned(c);
        }
      } else {
        fixed, c' := false, c;
      }
    }

    /** The brother and its children are black: the brother turns red and the parent absorbs the
        missing black if it is red, else it is one black short itself. */
    method FixBlackNephews(id: nat, ghost c: Ctx, ghost t: Tree, ghost n: nat, up: nat, brother: nat)
      returns (ghost c': Ctx)
      requires t.Node? && t.id == id && At(node, c, t, id) && root == RootId(c, id)
      requires !c.Top? && c.id == up && Sibling(c).Node? && Sibling(c).id == brother && Sibling(c).color.Black?
      requires CtxRedBlack(c, n + 1)
      requires TreeColor(Nephew(c, true)).Black? && TreeColor(Nephew(c, false)).Black?
      modifies this`node, this`root
      ensures At(node, c', t, id) && root == RootId(c', id)
      ensures CtxRedBlack(c', n) && SamePlace(c, c')
      ensures SameOutside(old(node), node, CtxIds(c) + Ids(t))
      decreases FixRank(c), 0
    {
      hide Inorder, Before, After;
      SiblingReddened(c, n);
      AtSiblingRecolor(node, c, t, id, Red);
      node := node[brother := node[brother].(color := Red)];
      c' := WithSibling(c, Sibling(c).(color := Red));
      AtUp(node, c', t, id);
      AtCross(node, c', t, id);
      if node[up].color == Black {
        ghost var above := FixDoubleBlack(up, c'.above, Up(c', t), n + 1);
        FixedAbove(node, c', above, t, n);
        c' := c'.(above := above);
      } else {
        AtParentRecolor(node, c', t, id, Black);
        node := node[up := node[up].(color := Black)];
        c' := c'.(color := Black);
      }
    }

    /** The subtree `t`, rooted at `id`, is one black short: the context is repaired around it.
        The missing brother mcachefs also tests for cannot occur here. */
    method FixDoubleBlack(id: nat, ghost c: Ctx, ghost t: Tree, ghost n: nat) returns (ghost c': Ctx)
      requires t.Node? && t.id == id && At(node, c, t, id) && root == RootId(c, id)
      requires CtxRedBlack(c, n + 1)
      modifies this`node, this`root
      ensures At(node, c', t, id) && root == RootId(c', id)
      ensures CtxRedBlack(c', n) && SamePlace(c, c')
      ensures SameOutside(old(node), node, CtxIds(c) + Ids(t))
      decreases FixRank(c), 1
    {
      FixLinks(node, c, t, n);
      if node[id].up == 0 {
        return c;
      }
      var brother := Brother(id);
      var up := node[id].up;
      var brotherIsLeft := node[up].left == brother;
      if node[brother].color == Red {
        RedSiblingTurnedRedBlack(c, n);
        FixRedBrother(c, t, up, brother, brotherIsLeft);
        c' := FixDoubleBlack(id, RedSiblingTurned(c), t, n);
      } else {
        var fixed;
        fixed, c' := FixNephews(c, t, n, up, brother, brotherIsLeft);
        if !fixed {
          c' := FixBlackNephews(id, c, t, n, up, brother);
        }
      }
    }

    method HashSwapRestore(first: nat, isLeft: bool)
      requires 0 < first < |node|
      requires var l := node[first];
        && l.up < |node| && l.left < |node| && l.right < |node| && first !in {l.up, l.left, l.right}
        && (l.up != 0 ==> l.up !in {l.left, l.right})
      modifies this`node
      ensures |node| == |old(node)|
      ensures forall i :: 0 <= i < |node| ==> node[i] == Announced(old(node), first, isLeft, i)
    {
      if node[first].up != 0 {
        if isLeft {
          node := node[node[first].up := node[node[first].up].(left := first)];
        } else {
          node := node[node[first].up := node[node[first].up].(right := first)];
        }
      }
      if node[first].left != 0 {
        node := node[node[first].left := node[node[first].left].(up := first)];
      }
      if node[first].right != 0 {
        node := node[node[first].right := node[node[first].right].(up := first)];
      }
    }

    /** The part of the swap that rewrites the two entries themselves. */
    method HashTrade(first: nat, second: nat, firstIsLeft: bool)
      requires Tradable(node, first, second)
      requires node[first].up == second ==> (firstIsLeft <==> node[second].left == first)
      modifies this`node
      ensures node == old(node)[first := SwapLink(first, second, old(node)[second])][second := SwapLink(first, second, old(node)[first])]
    {
      var temp := node[first];
      node := node[first := node[first].(color := node[second].color)];
      node := node[second := node[second].(color := temp.color)];
      if node[first].up == second {
        node := node[first := node[first].(up := node[second].up)];
        node := node[second := node[second].(up := first)];
        var otherChild := if node[second].left == first then node[second].right else node[second].left;
        if firstIsLeft {
          node := node[first := node[first].(left := second, right := otherChild)];
        } else {
          node := node[first := node[first].(left := otherChild, right := second)];
        }
        node := node[second := node[second].(left := temp.left, right := temp.right)];
      } else {
        node := node[first := node[first].(up := node[second].up, left := node[second].left, right := node[second].right)];
        node := node[second := node[second].(up := temp.up, left := temp.left, right := temp.right)];
      }
    }

    /** Exchanges the tree positions and colours of two tree nodes. The index root is not moved. */
    method HashSwap(first: nat, second: nat, ghost t: Tree, ghost top: nat)
      requires Rep(node, t, top, 0) && Distinct(t) && first in Ids(t) && second in Ids(t) && first != second
      requires 0 < first < |node| && 0 < second < |node|
      modifies this`node
      ensures Exchanged(old(node), node, first, second, Ids(t)) && SameOutside(old(node), node, Ids(t))
      decreases node[second].up == first
    {
      hide Inorder, Sorted, Plug;
      SwapReady(node, t, top, first, second);
      ghost var m := node;
      if node[second].up == first {
        HashSwap(second, first, t, top);
        return;
      }
      var firstIsLeft := node[first].up != 0 && node[node[first].up].left == first;
      var secondIsLeft := node[second].up != 0 && node[node[second].up].left == second;
      HashTrade(first, second, firstIsLeft);
      HashSwapRestore(first, secondIsLeft);
      ghost var m2 := node;
      assert m2[second] == SwapLink(first, second, m[first]);
      HashSwapRestore(second, firstIsLeft);
      SwapDone(m, m2, node, t, top, first, second);
    }

    /** The leftmost entry below `start`. */
    method FindSuccessor(start: nat, ghost c: Ctx, ghost t: Tree) returns (s: nat, ghost c': Ctx, ghost t': Tree)
      requires t.Node? && t.id == start && At(node, c, t, start)
      ensures t'.Node? && t'.id == s && At(node, c', t', s) && t'.left.Leaf?
      ensures Plug(c', t') == Plug(c, t) && Before(c') == Before(c) && RootId(c', s) == RootId(c, start)
      ensures s in Ids(t) && t' == Leftmost(t)
    {
      s, c', t' := start, c, t;
      AtDown(node, c', t');
      AtLeaf(node, c', t');
      while node[s].left != 0
        invariant t'.Node? && t'.id == s && At(node, c', t', s)
        invariant Plug(c', t') == Plug(c, t) && Before(c') == Before(c) && RootId(c', s) == RootId(c, start)
        invariant s in Ids(t) && Ids(t') <= Ids(t) && Leftmost(t') == Leftmost(t)
        invariant node[s].left == TreeId(t'.left) && (t'.left.Leaf? <==> node[s].left == 0)
        decreases t'
      {
        AtDown(node, c', t');
        s := node[s].left;
        c', t' := DownLeft(c', t'), t'.left;
        AtDown(node, c', t');
        AtLeaf(node, c', t');
      }
    }

    method RemoveLeaf(id: nat, ghost c: Ctx, ghost t: Tree) returns (ghost whole: Tree)
      requires t.Node? && t.id == id && t.left.Leaf? && t.right.Leaf? && !c.Top?
      requires At(node, c, t, id) && root == RootId(c, id) && RedBlack(t) && CtxRedBlack(c, BlackHeight(t))
      modifies this`node, this`root
      ensures Without(node, c, t, whole, root)
      ensures SameOutside(old(node), node, CtxIds(c) + Ids(t))
    {
      hide Before, After, Inorder;
      AtCross(node, c, t, id);
      var up := node[id].up;
      var iAmLeft := node[up].left == id;
      ghost var c' := c;
      if node[id].color == Black {
        c' := FixDoubleBlack(id, c, t, 0);
      } else {
        RedLeafBrother(c);
        var brother := Brother(id);
        if brother != 0 {
          node := node[brother := node[brother].(color := Red)];
          assert node == old(node);
        }
      }
      CutOff(up, iAmLeft, c', t);
      whole := LeafGone(node, c, c', t);
    }

    /** Empties the link to a leaf. */
    method CutOff(up: nat, onLeft: bool, ghost c: Ctx, ghost t: Tree)
      requires t.Node? && !c.Top? && At(node, c, t, t.id) && c.id == up && (onLeft <==> c.InLeft?) && root == RootId(c, t.id)
      modifies this`node
      ensures At(node, c, Leaf, 0) && root == RootId(c, 0)
      ensures SameOutside(old(node), node, CtxIds(c) + Ids(t))
    {
      hide Before, After, Inorder;
      AtCross(node, c, t, t.id);
      if onLeft {
        node := node[up := node[up].(left := 0)];
      } else {
        node := node[up := node[up].(right := 0)];
      }
      CutAt(old(node), node, c, t);
    }

    method RemoveSingle(id: nat, replacer: nat, ghost c: Ctx, ghost t: Tree, ghost s: Tree) returns (ghost whole: Tree)
      requires t.Node? && t.id == id && !c.Top? && At(node, c, t, id)
      requires s.Node? && s.id == replacer && ((t.left.Leaf? && s == t.right) || (t.right.Leaf? && s == t.left))
      requires RedBlack(t) && CtxRedBlack(c, BlackHeight(t))
      modifies this`node
      ensures Without(node, c, t, whole, RootId(c, id))
      ensures SameOutside(old(node), node, CtxIds(c) + Ids(t))
    {
      hide Inorder, Before, After;
      AtCross(node, c, t, id);
      AtDown(node, c, t);
      OnlyChild(t, s);
      var up := node[id].up;
      if node[up].left == id {
        node := node[up := node[up].(left := replacer)];
      } else {
        node := node[up := node[up].(right := replacer)];
      }
      node := node[replacer := node[replacer].(up := up)];
      node := node[replacer := node[replacer].(color := Black)];
      SpliceAt(old(node), node, c, t, s);
      whole := Spliced(node, c, t, s);
    }

    /** Takes the tree node `id`, which is in no collision chain, out of the tree: directly if it
        has a free side, else after trading places with its successor. `bug` is the abort
        mcachefs runs into; it concerns the index root only. */
    method DoRemoveHash(id: nat, ghost c: Ctx, ghost t: Tree) returns (bug: bool, ghost whole: Tree)
      requires t.Node? && t.id == id && At(node, c, t, id) && RedBlackRoot(Plug(c, t))
      requires id != root ==> root == RootId(c, id)
      modifies this`node, this`root
      ensures id != old(root) ==> !bug && Without(node, c, t, whole, root)
      ensures id == old(root) ==> root == id && (bug <==> RootAborts(c, t))
      ensures SameOutside(old(node), node, Ids(Plug(c, t)))
      decreases t.left.Node? && t.right.Node?, 1
    {
      RemovalStart(node, c, t);
      bug, whole := false, t;
      if node[id].left == 0 && node[id].right == 0 {
        if id == root {
          bug := true;
        } else {
          whole := RemoveLeaf(id, c, t);
        }
      } else if node[id].left == 0 || node[id].right == 0 {
        var replacer := if node[id].left != 0 then node[id].left else node[id].right;
        if node[id].up == 0 {
          bug := true;
        } else {
          whole := RemoveSingle(id, replacer, c, t, if t.left.Node? then t.left else t.right);
        }
      } else {
        bug, whole := RemoveBySuccessor(id, c, t);
      }
    }

    method RemoveBySuccessor(id: nat, ghost c: Ctx, ghost t: Tree) returns (bug: bool, ghost whole: Tree)
      requires t.Node? && t.id == id && At(node, c, t, id) && RedBlackRoot(Plug(c, t))
      requires id != root ==> root == RootId(c, id)
      requires t.left.Node? && t.right.Node?
      modifies this`node, this`root
      ensures id != old(root) ==> !bug && Without(node, c, t, whole, root)
      ensures id == old(root) ==> root == id && (bug <==> RootAborts(c, t))
      ensures SameOutside(old(node), node, Ids(Plug(c, t)))
      decreases t.left.Node? && t.right.Node?, 0
    {
      AtDown(node, c, t);
      var replacer;
      ghost var e, s;
      replacer, e, s := FindSuccessor(node[id].right, DownRight(c, t), t.right);
      SuccessorFacts(node, c, t, e, s);
      HashSwap(replacer, id, Plug(c, t), RootId(c, id));
      SuccessorSwapped(old(node), node, c, t, e, s);
      bug, whole := DoRemoveHash(id, SwapCtx(replacer, id, e), SwapTree(replacer, id, s));
      SuccessorRemoved(old(node), c, t, e, s);
      SuccessorAborts(old(node), c, t, e, s);
    }

    // ---------------------------------------------------------------- removal from a chain

    /** Bridges the chain over `id`. */
    method UnlinkCollider(id: nat)
      requires id < |cnext| == |cprev| && 0 < cprev[id] < |cnext| && cnext[id] < |cnext|
      modifies this`cnext, this`cprev
      ensures |cnext| == |old(cnext)| && |cprev| == |old(cprev)|
      ensures forall i :: 0 < i < |cnext| ==> cnext[i] == if i == old(cprev)[id] then old(cnext)[id] else old(cnext)[i]
      ensures forall i :: 0 < i < |cprev| ==> cprev[i] == if i == old(cnext)[id] then old(cprev)[id] else old(cprev)[i]
    {
      var next, previous := cnext[id], cprev[id];
      cnext := cnext[previous := cnext[id]];
      if next != 0 {
        cprev := cprev[next := cprev[id]];
      }
    }

    /** The entry itself keeps its chain links. */
    twostate predicate OwnLinks(id: nat)
      reads this
    {
      && id < |cnext| == |old(cnext)| && id < |cprev| == |old(cprev)|
      && cnext[id] == old(cnext)[id] && cprev[id] == old(cprev)[id]
    }

    /** Unlinks an entry that is not the first of its chain. */
    method RemoveFollower(id: nat, ghost k: nat)
      requires Valid() && Member(id) && 0 < k < |chains[hash[id]]| && chains[hash[id]][k] == id
      modifies this`cnext, this`cprev, this`chains
      ensures Valid() && chains == Dropped(old(chains), hash[id], k) && OwnLinks(id)
      ensures OthersUntouched(hash, old(chains), id, node, node, old(cnext), cnext, old(cprev), cprev)
    {
      FollowerNeighbours(hash, node, cnext, cprev, Ids(tree), chains, hash[id], k);
      UnlinkCollider(id);
      FollowerDropped(hash, node, old(cnext), old(cprev), cnext, cprev, Ids(tree), chains, hash[id], k);
      chains := Dropped(chains, hash[id], k);
    }

    /** Hangs `next` where `id` was. */
    method ReplaceInParent(id: nat, next: nat)
      requires id < |node| && node[id].up < |node|
      modifies this`node, this`root
      ensures root == if old(node)[id].up == 0 then next else old(root)
      ensures old(node)[id].up == 0 ==> node == old(node)
      ensures old(node)[id].up != 0 ==>
        var p := old(node)[id].up;
        node == old(node)[p := if old(node)[p].left == id then old(node)[p].(left := next) else old(node)[p].(right := next)]
    {
      if node[id].up != 0 {
        if node[node[id].up].left == id {
          node := node[node[id].up := node[node[id].up].(left := next)];
        } else {
          node := node[node[id].up := node[node[id].up].(right := next)];
        }
      } else {
        root := next;
      }
    }

    /** Gives the tree place of `id` to the next entry of its chain. The link up and the colour
        of that entry are left as they are. */
    method PromoteFollower(id: nat)
      requires 0 < id < |node| && |node| == |cnext| == |cprev|
      requires Promotable(node, id, cnext[id])
      modifies this`node, this`cprev, this`root
      ensures |node| == |old(node)| && cprev == old(cprev)[cnext[id] := old(cprev)[id]]
      ensures root == if old(node)[id].up == 0 then cnext[id] else old(root)
      ensures forall i :: 0 < i < |node| ==> node[i] == PromotedLink(old(node), id, cnext[id], i)
    {
      var next := cnext[id];
      ReplaceInParent(id, next);
      if node[id].left != 0 {
        node := node[next := node[next].(left := node[id].left)];
        node := node[node[id].left := node[node[id].left].(up := next)];
      }
      if node[id].right != 0 {
        node := node[next := node[next].(right := node[id].right)];
        node := node[node[id].right := node[node[id].right].(up := next)];
      }
      cprev := cprev[next := cprev[id]];
    }

    /** Removes the first entry of a longer chain. The index survives this exactly when the entry
        was the index root: elsewhere the promoted entry keeps an empty link up. */
    method RemoveHead(id: nat)
      requires Valid() && id in Ids(tree) && cnext[id] != 0
      modifies this`node, this`cprev, this`root, this`tree, this`chains
      ensures id == old(root) ==> Valid() && chains == Dropped(old(chains), hash[id], 0)
      ensures id != old(root) ==> Orphaned(node, cprev, root, cnext[id])
      ensures OwnLinks(id)
      ensures OthersUntouched(hash, old(chains), id, old(node), node, cnext, cnext, old(cprev), cprev)
    {
      HeadFacts(hash, node, cnext, cprev, root, tree, chains, id);
      ghost var next, h := cnext[id], hash[id];
      PromoteFollower(id);
      PromotedUntouched(hash, old(node), node, cnext, old(cprev), Ids(tree), chains, id);
      if id == old(root) {
        PromotedRoot(hash, old(node), node, tree, id, next);
        HeadPromoted(hash, old(node), node, cnext, old(cprev), Ids(tree), chains, h);
        tree := Node(tree.left, next, Black, tree.right);
        chains := Dropped(chains, h, 0);
      }
    }

    /** Removes an entry whose hash is unique. The index survives this exactly when the entry is
        not the index root: else mcachefs leaves the root behind, if it does not abort. */
    method RemoveStandalone(id: nat) returns (bug: bool)
      requires Valid() && id in Ids(tree) && cnext[id] == 0
      modifies this`node, this`root, this`tree, this`chains
      ensures id != old(root) ==> !bug && Valid() && chains == Dropped(old(chains), hash[id], 0)
      ensures id == old(root) ==> root == id
      ensures bug <==> id == old(root) && old(tree).Node? && RootAborts(Top, old(tree))
      ensures OthersUntouched(hash, old(chains), id, old(node), node, cnext, cnext, cprev, cprev)
    {
      hide Chained, OthersUntouched, Inorder, Sorted, InRange;
      ghost var c, t := Locate(node, Top, tree, id);
      ghost var whole;
      Lengths(hash, node, cnext, cprev, Ids(tree), chains);
      StandaloneChain(hash, node, cnext, cprev, Ids(tree), chains, id);
      RootWhole(node, c, t, tree, root);
      bug, whole := DoRemoveHash(id, c, t);
      HeadDropped(hash, old(node), node, cnext, cprev, Ids(tree), chains, id);
      if id != old(root) {
        WithoutSorted(node, hash, c, t, whole, root);
        tree := whole;
        chains := Dropped(chains, hash[id], 0);
      }
    }

    /** Removing `id` keeps the index well-formed: it is not the first of its chain, or it is
        the first and has followers exactly if it is the index root. */
    predicate Removable(id: nat)
      requires id < |cprev| && id < |cnext|
      reads this
    {
      cprev[id] != 0 || (cnext[id] != 0 <==> id == root)
    }

    /** Removing `id` aborts: it is the index root, alone with its hash, and has a free side, or a successor
        without children. */
    ghost predicate Aborting(id: nat)
      requires id < |cprev| && id < |cnext|
      reads this
    {
      cprev[id] == 0 && cnext[id] == 0 && id == root && tree.Node? && RootAborts(Top, tree)
    }

    /** The dispatch over the three kinds of removal. */
    method DoRemove(id: nat, ghost k: nat) returns (bug: bool)
      requires Valid() && Member(id) && k < |chains[hash[id]]| && chains[hash[id]][k] == id
      modifies this`node, this`cnext, this`cprev, this`root, this`tree, this`chains
      ensures old(Removable(id)) ==> !bug && Valid() && chains == Dropped(old(chains), hash[id], k)
      ensures (bug ==> root == id && !old(Removable(id))) && (bug <==> old(Aborting(id)))
      ensures !old(Removable(id)) ==> root == id || Orphaned(node, cprev, root, old(cnext)[id])
      ensures OwnLinks(id)
      ensures OthersUntouched(hash, old(chains), id, old(node), node, old(cnext), cnext, old(cprev), cprev)
    {
      ChainEntry(hash, cnext, cprev, hash[id], chains[hash[id]], k);
      bug := false;
      if cprev[id] != 0 {
        RemoveFollower(id, k);
      } else if cnext[id] != 0 {
        RemoveHead(id);
      } else {
        bug := RemoveStandalone(id);
      }
    }

    /** Takes `id` out of the index. */
    method RemoveHash(id: nat) returns (bug: bool)
      requires Valid() && Member(id)
      modifies this`node, this`cnext, this`cprev, this`root, this`tree, this`chains
      ensures old(Removable(id)) ==> !bug && Valid() && Indexed() == old(Indexed()) - {id}
      ensures Indexes(hash, node, cnext, cprev, root, old(Indexed()) - {id}) <==> old(Removable(id))
      ensures bug <==> old(Aborting(id))
      ensures OwnLinks(id) && id < |node| && (!bug ==> node[id].up == node[id].left == node[id].right == 0)
      ensures OthersUntouched(hash, old(chains), id, old(node), node, old(cnext), cnext, old(cprev), cprev)
    {
      hide Indexes, Ids, Inorder, Sorted, RedBlackRoot, At;
      ghost var k :| 0 <= k < |chains[hash[id]]| && chains[hash[id]][k] == id;
      DroppedMembers(hash, node, cnext, cprev, Ids(tree), chains, hash[id], k);
      bug := DoRemove(id, k);
      if bug {
        StaleRoot(hash, node, cnext, cprev, root, old(Indexed()) - {id});
        return;
      }
      ghost var m := node;
      node := node[id := node[id].(up := 0, left := 0, right := 0)];
      if old(Removable(id)) {
        StillIndexes(hash, m, node, cnext, cprev, root, tree, chains, id);
      } else if root == id {
        StaleRoot(hash, node, cnext, cprev, root, old(Indexed()) - {id});
      } else {
        OrphanLost(hash, node, cnext, cprev, root, old(Indexed()) - {id}, old(cnext)[id]);
      }
    }

    // ---------------------------------------------------------------- entries outside the index

    /** `id` is in neither the tree nor a chain and carries no stale chain links. */
    ghost predicate Pristine(id: nat)
      reads this
    {
      0 < id < |hash| == |cnext| == |cprev| && !Member(id) && cnext[id] == 0 && cprev[id] == 0
    }

    /** The links of all other entries outside the index are left alone. */
    twostate predicate OthersPristine(id: nat)
      reads this
    {
      forall i :: i != id && old(Pristine(i)) ==> Pristine(i)
    }

    /** The arena is a well-formed index of `s`. */
    ghost predicate Indexing(s: set<nat>)
      reads this
    {
      Indexes(hash, node, cnext, cprev, root, s)
    }

    /** `RemoveHash`, as the store sees it. */
    method Leave(id: nat) returns (bug: bool)
      requires Valid() && Member(id)
      modifies this`node, this`cnext, this`cprev, this`root, this`tree, this`chains
      ensures Indexing(old(Indexed()) - {id}) <==> old(Removable(id))
      ensures old(Removable(id)) ==> !bug && Valid() && Indexed() == old(Indexed()) - {id} && OthersPristine(id) && !Member(id)
      ensures bug <==> old(Aborting(id))
      ensures OwnLinks(id)
    {
      bug := RemoveHash(id);
      if old(Removable(id)) {
        assert Member(id) <==> id in Indexed();
        forall i | i != id && old(Pristine(i))
          ensures Pristine(i)
        {
          assert Member(i) <==> i in Indexed();
        }
      }
    }

    /** Gives an entry outside the index its hash. */
    method SetHash(id: nat, h: nat)
      requires Valid() && 0 < id < |hash| && !Member(id)
      modifies this`hash
      ensures hash == old(hash)[id := h] && Valid() && !Member(id) && Indexed() == old(Indexed())
      ensures OthersPristine(id)
    {
      HashIrrelevant(hash, hash[id := h], node, cnext, cprev, root, tree, chains, id);
      hash := hash[id := h];
      forall i | i != id && old(Pristine(i))
        ensures Pristine(i)
      {
        assert Member(i) <==> i in Indexed();
      }
    }

    /** The chain links `id` may still carry do no harm under the hash `h`: it has no next, and its
        previous is going to be replaced. */
    ghost predicate InsertableAs(id: nat, h: nat)
      reads this
    {
      id < |cnext| && id < |cprev| && cnext[id] == 0 && (cprev[id] == 0 || h in chains)
    }

    /** `InsertHash`, as the store sees it, with a new hash. */
    method EnterAs(id: nat, h: nat) returns (clean: bool)
      requires Valid() && 0 < id < |hash| && !Member(id)
      modifies this
      ensures Indexing(old(Indexed()) + {id}) == clean == old(InsertableAs(id, h))
      ensures old(InsertableAs(id, h)) ==> Valid() && Indexed() == old(Indexed()) + {id} && OthersPristine(id)
      ensures hash == old(hash)[id := h]
    {
      hide Chained, Indexes, TreeOk;
      Lengths(hash, node, cnext, cprev, Ids(tree), chains);
      SetHash(id, h);
      label Named:
      clean := InsertHash(id);
      if old(InsertableAs(id, h)) {
        forall i | i != id && old(Pristine(i))
          ensures Pristine(i)
        {
          assert old@Named(Pristine(i));
          assert Member(i) <==> i in Indexed();
        }
      }
    }

    /** Wipes the index fields of an entry outside the index. */
    method Clear(id: nat)
      requires Valid() && 0 < id < |hash| && !Member(id)
      modifies this`hash, this`node, this`cnext, this`cprev
      ensures Valid() && Pristine(id) && Indexed() == old(Indexed())
      ensures hash == old(hash)[id := 0] && cnext == old(cnext)[id := 0] && cprev == old(cprev)[id := 0]
      ensures node == old(node)[id := Link(0, 0, 0, Black)]
    {
      NotListed(hash, node, cnext, cprev, Ids(tree), chains, id);
      LinksIrrelevant(hash, node, cnext, cnext[id := 0], cprev, cprev[id := 0], Ids(tree), chains, id);
      cnext := cnext[id := 0];
      cprev := cprev[id := 0];
      OutsideIrrelevant(hash, node, node[id := Link(0, 0, 0, Black)], cnext, cprev, root, tree, chains, id);
      node := node[id := Link(0, 0, 0, Black)];
      HashIrrelevant(hash, hash[id := 0], node, cnext, cprev, root, tree, chains, id);
      hash := hash[id := 0];
    }

    /** Formats `n` more entries. */
    method Extend(n: nat)
      requires Valid()
      modifies this`hash, this`node, this`cnext, this`cprev
      ensures Valid() && Indexed() == old(Indexed()) && |hash| == |old(hash)| + n
      ensures hash[..|old(hash)|] == old(hash) && cnext[..|old(hash)|] == old(cnext) && cprev[..|old(hash)|] == old(cprev)
      ensures forall i :: |old(hash)| <= i < |hash| ==> Pristine(i)
    {
      hash := hash + seq(n, i => 0);
      node := node + seq(n, i => Link(0, 0, 0, Black));
      cnext := cnext + seq(n, i => 0);
      cprev := cprev + seq(n, i => 0);
      Extended(old(hash), hash, old(node), node, old(cnext), cnext, old(cprev), cprev, root, tree, chains);
    }
  }
}
