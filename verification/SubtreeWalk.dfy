/** Walking over all that lies below a directory without a stack, by the links of the entries. */
module SubtreeWalk {
  import opened DirForest
  import opened Sequences

  /** The entries of a forest, each before what is below it. */
  ghost function Preorder(f: Forest): seq<nat> {
    match f
    case Nil => []
    case Cons(id, k, r) => [id] + Preorder(k) + Preorder(r)
  }

  /** The entries of a forest, each after what is below it. */
  ghost function Postorder(f: Forest): seq<nat> {
    match f
    case Nil => []
    case Cons(id, k, r) => Postorder(k) + [id] + Postorder(r)
  }

  lemma {:induction false} PreorderIds(f: Forest)
    ensures forall i :: i in Preorder(f) <==> i in All(f)
  {
    if f.Cons? {
      PreorderIds(f.kids);
      PreorderIds(f.rest);
    }
  }

  lemma {:induction false} PostorderIds(f: Forest)
    ensures forall i :: i in Postorder(f) <==> i in All(f)
  {
    if f.Cons? {
      PostorderIds(f.kids);
      PostorderIds(f.rest);
    }
  }

  /** A walk in either order meets every entry once. */
  lemma {:induction false} WalksOnce(f: Forest)
    requires Disjoint(f)
    ensures NoDup(Preorder(f)) && NoDup(Postorder(f))
  {
    if f.Cons? {
      WalksOnce(f.kids);
      WalksOnce(f.rest);
      PreorderIds(f.kids);
      PreorderIds(f.rest);
      PostorderIds(f.kids);
      PostorderIds(f.rest);
      NoDupJoined([f.id], Preorder(f.kids));
      NoDupJoined([f.id] + Preorder(f.kids), Preorder(f.rest));
      NoDupJoined(Postorder(f.kids), [f.id]);
      NoDupJoined(Postorder(f.kids) + [f.id], Postorder(f.rest));
    }
  }

  // ---------------------------------------------------------------- the way back up

  /** The spot `c` is `base` or further down. */
  ghost predicate Under(c: Spot, base: Spot) {
    c == base || (!c.Whole? && Under(c.above, base))
  }

  /** What is still to be met above the spot `c`, up to `base`. */
  ghost function Pending(c: Spot, base: Spot): seq<nat> {
    if c == base then [] else
    match c
    case Whole => []
    case InKids(above, _, r) => Preorder(r) + Pending(above, base)
    case InRest(above, _, _) => Pending(above, base)
  }

  ghost function SpotDepth(c: Spot): nat {
    if c.Whole? then 0 else SpotDepth(c.above) + 1
  }

  lemma {:induction false} PendingIds(c: Spot, base: Spot)
    ensures forall i :: i in Pending(c, base) ==> i in SpotIds(c)
  {
    if c != base && !c.Whole? {
      PendingIds(c.above, base);
      if c.InKids? { PreorderIds(c.rest); }
    }
  }

  lemma {:induction false} UnderIds(c: Spot, base: Spot)
    requires Under(c, base) && !base.Whole?
    ensures !c.Whole? && base.id in SpotIds(c)
  {
    if c != base {
      UnderIds(c.above, base);
    }
  }

  /** The directory one is in has been met already. */
  lemma {:induction false} FatherPassed(c: Spot, base: Spot)
    requires Under(c, base) && base.InKids? && SpotDisjoint(c)
    ensures FatherAt(c) !in Pending(c, base) && FatherAt(c) in SpotIds(c)
  {
    if c != base {
      if c.InRest? {
        FatherPassed(c.above, base);
      } else {
        PendingIds(c.above, base);
        PreorderIds(c.rest);
      }
    }
  }

  /** Back in the directory one started from nothing is left above. */
  lemma {:induction false} BackAtBase(c: Spot, base: Spot)
    requires Under(c, base) && base.InKids? && SpotDisjoint(c) && FatherAt(c) == base.id
    ensures Pending(c, base) == []
  {
    if c != base {
      if c.InRest? {
        BackAtBase(c.above, base);
      } else {
        UnderIds(c.above, base);
        assert false;
      }
    }
  }

  /** From the last of a list of siblings up to their father. */
  lemma {:induction false} Ascend(m: seq<Entry>, c: Spot, f: Forest, base: Spot) returns (c': Spot, f': Forest)
    requires f.Cons? && At(m, c, f, f.id) && Under(c, base) && base.InKids? && FatherAt(c) != base.id
    ensures f'.Cons? && f'.id == FatherAt(c) && At(m, c', f', f'.id) && Under(c', base)
    ensures Pending(c, base) == Preorder(f'.rest) + Pending(c', base)
    ensures SpotDepth(c') < SpotDepth(c) && f'.id < |m| && 0 < f'.id
    ensures Fill(c', f') == Fill(c, f)
  {
    UnderIds(c, base);
    if c.InRest? {
      assert At(m, c.above, Cons(c.id, c.kids, f), c.id);
      c', f' := Ascend(m, c.above, Cons(c.id, c.kids, f), base);
    } else {
      assert At(m, c.above, Cons(c.id, f, c.rest), c.id);
      c', f' := c.above, Cons(c.id, f, c.rest);
    }
  }

  // ---------------------------------------------------------------- states of a walk

  /** The entries not met yet. */
  ghost function Todo(kids: Forest, visited: seq<nat>): set<nat> {
    All(kids) - Elements(visited)
  }

  /** The walk has met `visited` and is about to meet the first of `f`. */
  ghost predicate Walking(m: seq<Entry>, c: Spot, f: Forest, base: Spot, kids: Forest, visited: seq<nat>) {
    && f.Cons? && At(m, c, f, f.id) && Under(c, base) && base.InKids? && Disjoint(kids)
    && visited + (Preorder(f) + Pending(c, base)) == Preorder(kids)
  }

  /** The walk has met `visited`, last the first of `f` and all that is below it. */
  ghost predicate Returning(m: seq<Entry>, c: Spot, f: Forest, base: Spot, kids: Forest, visited: seq<nat>) {
    && f.Cons? && At(m, c, f, f.id) && Under(c, base) && base.InKids? && Disjoint(kids)
    && visited + (Preorder(f.rest) + Pending(c, base)) == Preorder(kids)
  }

  /** A sequence without repetitions, cut in two. */
  lemma NoDupSplit(a: seq<nat>, b: seq<nat>, s: seq<nat>)
    requires NoDup(s) && a + b == s && b != []
    ensures b[0] !in a && b[0] in s && a + [b[0]] <= s && |a| < |s|
    ensures forall i :: i in s && i !in a ==> i in b
  {
    assert forall j :: 0 <= j < |a| ==> a[j] == s[j];
    assert s[|a|] == b[0];
    assert forall i :: i in s ==> i in a || i in b;
  }

  /** The entry about to be met is new, its father is not. */
  lemma WalkStep(m: seq<Entry>, c: Spot, f: Forest, base: Spot, kids: Forest, visited: seq<nat>)
    requires Walking(m, c, f, base, kids, visited)
    ensures f.id in Todo(kids, visited) && FatherAt(c) !in Todo(kids, visited)
    ensures visited + [f.id] <= Preorder(kids) && |visited| < |Preorder(kids)|
    ensures Todo(kids, visited + [f.id]) == Todo(kids, visited) - {f.id}
    ensures 0 < f.id < |m| && m[f.id].father == FatherAt(c) && (f.kids.Cons? <==> m[f.id].child.First?)
  {
    hide Lists, SpotLists, Disjoint, Postorder;
    var todo := Preorder(f) + Pending(c, base);
    PreorderIds(kids);
    WalksOnce(kids);
    NoDupSplit(visited, todo, Preorder(kids));
    assert todo[0] == f.id;
    AtDown(m, c, f);
    PreorderIds(f);
    FatherPassed(c, base);
    assert FatherAt(c) !in todo;
  }

  lemma {:induction false} UnderDepth(c: Spot, base: Spot)
    requires Under(c, base)
    ensures SpotDepth(base) <= SpotDepth(c)
  {
    if c != base { UnderDepth(c.above, base); }
  }

  /** On to the first child. */
  lemma WalkDown(m: seq<Entry>, c: Spot, f: Forest, base: Spot, kids: Forest, visited: seq<nat>)
    requires Walking(m, c, f, base, kids, visited) && f.kids.Cons?
    ensures Walking(m, InKids(c, f.id, f.rest), f.kids, base, kids, visited + [f.id])
    ensures f.id < |m| && m[f.id].child == First(f.kids.id)
  {
    hide Disjoint, Lists, SpotLists;
    AtDown(m, c, f);
    UnderDepth(c, base);
    var c' := InKids(c, f.id, f.rest);
    assert SpotDepth(c') > SpotDepth(base);
    assert Preorder(f) + Pending(c, base) == [f.id] + (Preorder(f.kids) + Pending(c', base));
    assert visited + ([f.id] + (Preorder(f.kids) + Pending(c', base))) == visited + [f.id] + (Preorder(f.kids) + Pending(c', base));
  }

  /** Nothing below: the entry is done with. */
  lemma WalkBack(m: seq<Entry>, c: Spot, f: Forest, base: Spot, kids: Forest, visited: seq<nat>)
    requires Walking(m, c, f, base, kids, visited) && f.kids.Nil?
    ensures Returning(m, c, f, base, kids, visited + [f.id])
  {
    assert Preorder(f) + Pending(c, base) == [f.id] + (Preorder(f.rest) + Pending(c, base));
    assert visited + ([f.id] + (Preorder(f.rest) + Pending(c, base))) == visited + [f.id] + (Preorder(f.rest) + Pending(c, base));
  }

  /** On to the next sibling. */
  lemma WalkOn(m: seq<Entry>, c: Spot, f: Forest, base: Spot, kids: Forest, visited: seq<nat>)
    requires Returning(m, c, f, base, kids, visited) && f.rest.Cons?
    ensures Walking(m, InRest(c, f.id, f.kids), f.rest, base, kids, visited)
    ensures f.id < |m| && m[f.id].next == f.rest.id
  {
    AtDown(m, c, f);
  }

  /** The last sibling: back to the father, or the end if that is where the walk started. */
  lemma WalkUp(m: seq<Entry>, c: Spot, f: Forest, base: Spot, kids: Forest, visited: seq<nat>) returns (c': Spot, f': Forest)
    requires Returning(m, c, f, base, kids, visited) && f.rest.Nil?
    ensures FatherAt(c) == base.id ==> visited == Preorder(kids)
    ensures FatherAt(c) != base.id ==> Returning(m, c', f', base, kids, visited) && f'.id == FatherAt(c) && SpotDepth(c') < SpotDepth(c)
  {
    c', f' := c, f;
    if FatherAt(c) == base.id {
      BackAtBase(c, base);
      assert visited + (Preorder(f.rest) + Pending(c, base)) == visited;
    } else {
      c', f' := Ascend(m, c, f, base);
      assert Preorder(f.rest) + Pending(c, base) == Pending(c, base);
    }
  }

  /** Below a directory. */
  lemma WalkStart(m: seq<Entry>, c: Spot, f: Forest)
    requires f.Cons? && At(m, c, f, f.id) && f.kids.Cons?
    ensures Walking(m, InKids(c, f.id, f.rest), f.kids, InKids(c, f.id, f.rest), f.kids, [])
    ensures f.id < |m| && m[f.id].child == First(f.kids.id)
  {
    AtDown(m, c, f);
    var base := InKids(c, f.id, f.rest);
    assert [] + (Preorder(f.kids) + Pending(base, base)) == Preorder(f.kids);
  }

  /** Outside `visited` nothing has changed. */
  ghost predicate KeptOutside<T>(s: seq<T>, s': seq<T>, visited: seq<nat>) {
    |s| == |s'| && forall i :: 0 <= i < |s| && i !in visited ==> s'[i] == s[i]
  }

  lemma WipedMore<T>(s: seq<T>, s': seq<T>, s'': seq<T>, visited: seq<nat>, id: nat)
    requires KeptOutside(s, s', visited) && id < |s'| == |s''| && s'' == s'[id := s''[id]]
    ensures KeptOutside(s, s'', visited + [id])
  {
  }

  lemma BackwardsMore(visited: seq<nat>, id: nat, free: seq<nat>)
    ensures Backwards(visited + [id]) + free == [id] + (Backwards(visited) + free)
  {
    assert (visited + [id])[..|visited|] == visited;
    assert Backwards(visited + [id]) == [id] + Backwards(visited);
  }

  ghost function Backwards(s: seq<nat>): seq<nat> {
    if s == [] then [] else [s[|s| - 1]] + Backwards(s[..|s| - 1])
  }

  // ---------------------------------------------------------------- a walk that ends with the directory

  /** What is still to be met above the spot `c` by a walk that meets directories last. */
  ghost function PendingLast(c: Spot, base: Spot): seq<nat> {
    if c == base then [] else
    match c
    case Whole => []
    case InKids(above, i, r) => [i] + Postorder(r) + PendingLast(above, base)
    case InRest(above, _, _) => PendingLast(above, base)
  }

  ghost predicate Sinking(m: seq<Entry>, c: Spot, f: Forest, base: Spot, kids: Forest, visited: seq<nat>) {
    && f.Cons? && At(m, c, f, f.id) && Under(c, base) && base.InKids? && Disjoint(kids)
    && visited + (Postorder(f) + PendingLast(c, base)) == Postorder(kids)
  }

  /** About to meet the first of `f`, with all below it met. */
  ghost predicate Leaving(m: seq<Entry>, c: Spot, f: Forest, base: Spot, kids: Forest, visited: seq<nat>) {
    && f.Cons? && At(m, c, f, f.id) && Under(c, base) && base.InKids? && Disjoint(kids)
    && visited + ([f.id] + (Postorder(f.rest) + PendingLast(c, base))) == Postorder(kids)
  }

  /** The first of `f` has been met. */
  ghost predicate Left(m: seq<Entry>, c: Spot, f: Forest, base: Spot, kids: Forest, visited: seq<nat>) {
    && f.Cons? && At(m, c, f, f.id) && Under(c, base) && base.InKids? && Disjoint(kids)
    && visited + (Postorder(f.rest) + PendingLast(c, base)) == Postorder(kids)
  }

  lemma SinkDown(m: seq<Entry>, c: Spot, f: Forest, base: Spot, kids: Forest, visited: seq<nat>)
    requires Sinking(m, c, f, base, kids, visited) && f.kids.Cons?
    ensures Sinking(m, InKids(c, f.id, f.rest), f.kids, base, kids, visited)
    ensures f.id < |m| && m[f.id].child == First(f.kids.id)
  {
    hide Disjoint, Lists, SpotLists;
    AtDown(m, c, f);
    UnderDepth(c, base);
    var c' := InKids(c, f.id, f.rest);
    assert SpotDepth(c') > SpotDepth(base);
    assert Postorder(f) + PendingLast(c, base) == Postorder(f.kids) + PendingLast(c', base);
  }

  lemma SinkLeaf(m: seq<Entry>, c: Spot, f: Forest, base: Spot, kids: Forest, visited: seq<nat>)
    requires Sinking(m, c, f, base, kids, visited)
    ensures f.kids.Nil? ==> Leaving(m, c, f, base, kids, visited)
    ensures f.id < |m| && (f.kids.Cons? <==> m[f.id].child.First?) && f.id !in visited && f.id in All(kids)
  {
    hide Disjoint, Lists, SpotLists;
    AtDown(m, c, f);
    assert f.kids.Nil? ==> Postorder(f) + PendingLast(c, base) == [f.id] + (Postorder(f.rest) + PendingLast(c, base));
    WalksOnce(kids);
    PostorderIds(kids);
    PostorderIds(f);
    OnceApart(visited, Postorder(f) + PendingLast(c, base), Postorder(kids), f.id);
  }

  lemma OnceApart(a: seq<nat>, b: seq<nat>, s: seq<nat>, x: nat)
    requires NoDup(s) && a + b == s && x in b
    ensures x !in a && x in s
  {
    var k :| 0 <= k < |b| && b[k] == x;
    assert s[|a| + k] == x;
    assert forall j :: 0 <= j < |a| ==> a[j] == s[j];
  }

  /** The entry about to be met is new. */
  lemma LeaveStep(m: seq<Entry>, c: Spot, f: Forest, base: Spot, kids: Forest, visited: seq<nat>)
    requires Leaving(m, c, f, base, kids, visited)
    ensures f.id in Todo(kids, visited) && Todo(kids, visited + [f.id]) == Todo(kids, visited) - {f.id}
    ensures Left(m, c, f, base, kids, visited + [f.id]) && |visited| < |Postorder(kids)| && Elements(visited) <= All(kids)
    ensures 0 < f.id < |m| && m[f.id].father == FatherAt(c) && (f.rest.Cons? <==> m[f.id].next != 0)
  {
    hide Disjoint, Lists, SpotLists;
    var later := Postorder(f.rest) + PendingLast(c, base);
    AtDown(m, c, f);
    PostorderIds(kids);
    WalksOnce(kids);
    NoDupSplit(visited, [f.id] + later, Postorder(kids));
    assert visited + ([f.id] + later) == visited + [f.id] + later;
    assert forall i :: i in visited ==> i in visited + ([f.id] + later);
  }

  lemma LeftOn(m: seq<Entry>, c: Spot, f: Forest, base: Spot, kids: Forest, visited: seq<nat>)
    requires Left(m, c, f, base, kids, visited) && f.rest.Cons?
    ensures Sinking(m, InRest(c, f.id, f.kids), f.rest, base, kids, visited)
    ensures f.id < |m| && m[f.id].next == f.rest.id
  {
    AtDown(m, c, f);
  }

  lemma {:induction false} LastAtBase(c: Spot, base: Spot)
    requires Under(c, base) && base.InKids? && SpotDisjoint(c) && FatherAt(c) == base.id
    ensures PendingLast(c, base) == []
  {
    if c != base {
      if c.InRest? {
        LastAtBase(c.above, base);
      } else {
        UnderIds(c.above, base);
        assert false;
      }
    }
  }

  lemma {:induction false} LastAbove(m: seq<Entry>, c: Spot, f: Forest, base: Spot) returns (c': Spot, f': Forest)
    requires f.Cons? && At(m, c, f, f.id) && Under(c, base) && base.InKids? && FatherAt(c) != base.id
    ensures f'.Cons? && f'.id == FatherAt(c) && At(m, c', f', f'.id) && Under(c', base)
    ensures PendingLast(c, base) == [f'.id] + (Postorder(f'.rest) + PendingLast(c', base))
    ensures SpotDepth(c') < SpotDepth(c)
  {
    UnderIds(c, base);
    if c.InRest? {
      assert At(m, c.above, Cons(c.id, c.kids, f), c.id);
      c', f' := LastAbove(m, c.above, Cons(c.id, c.kids, f), base);
    } else {
      assert At(m, c.above, Cons(c.id, f, c.rest), c.id);
      c', f' := c.above, Cons(c.id, f, c.rest);
    }
  }

  /** The last sibling is gone: its father is next, or the walk is over. */
  lemma LeftUp(m: seq<Entry>, c: Spot, f: Forest, base: Spot, kids: Forest, visited: seq<nat>) returns (c': Spot, f': Forest)
    requires Left(m, c, f, base, kids, visited) && f.rest.Nil?
    ensures FatherAt(c) == base.id ==> visited == Postorder(kids)
    ensures FatherAt(c) != base.id ==> Leaving(m, c', f', base, kids, visited) && f'.id == FatherAt(c) && SpotDepth(c') < SpotDepth(c)
  {
    c', f' := c, f;
    if FatherAt(c) == base.id {
      LastAtBase(c, base);
      assert visited + (Postorder(f.rest) + PendingLast(c, base)) == visited;
    } else {
      c', f' := LastAbove(m, c, f, base);
      assert Postorder(f.rest) + PendingLast(c, base) == PendingLast(c, base);
    }
  }

  lemma SinkStart(m: seq<Entry>, c: Spot, f: Forest)
    requires f.Cons? && At(m, c, f, f.id) && f.kids.Cons?
    ensures Sinking(m, InKids(c, f.id, f.rest), f.kids, InKids(c, f.id, f.rest), f.kids, [])
    ensures f.id < |m| && m[f.id].child == First(f.kids.id)
  {
    AtDown(m, c, f);
    var base := InKids(c, f.id, f.rest);
    assert [] + (Postorder(f.kids) + PendingLast(base, base)) == Postorder(f.kids);
  }
}
