/** Walking over a tree that grows on the way: directories are read as they are met. */
module FetchWalk {
  import opened DirForest
  import opened PathNames
  import opened Sequences
  import opened StoreMoves
  import opened StoreReading
  import opened StoreState
  import opened SubtreeWalk

  /** What a walk in preorder meets before it comes to the spot. */
  ghost function Before(c: Spot): seq<nat> {
    match c
    case Whole => []
    case InKids(above, id, _) => Before(above) + [id]
    case InRest(above, id, k) => Before(above) + [id] + Preorder(k)
  }

  lemma Regrouped(a: seq<nat>, x: nat, b: seq<nat>, c: seq<nat>, d: seq<nat>)
    ensures a + ([x] + b + c) + d == (a + [x]) + b + (c + d) == (a + [x] + b) + c + d
    ensures a + ([x] + b + c) == (a + [x] + b) + c
  {
  }

  lemma {:induction false} BeforeFill(c: Spot, f: Forest)
    ensures Preorder(Fill(c, f)) == Before(c) + Preorder(f) + Pending(c, Whole)
  {
    match c
    case Whole =>
    case InKids(above, id, r) =>
      BeforeFill(above, Cons(id, f, r));
      Regrouped(Before(above), id, Preorder(f), Preorder(r), Pending(above, Whole));
    case InRest(above, id, k) =>
      BeforeFill(above, Cons(id, k, f));
      Regrouped(Before(above), id, Preorder(k), Preorder(f), Pending(above, Whole));
  }

  lemma {:induction false} BeforeIds(c: Spot)
    ensures forall i :: i in Before(c) ==> i in SpotIds(c)
  {
    if !c.Whole? {
      BeforeIds(c.above);
      if c.InRest? { PreorderIds(c.kids); }
    }
  }

  /** Of `s`, what is not among `passed` has been read. */
  ghost predicate Known(m: seq<Entry>, s: seq<nat>, passed: seq<nat>) {
    forall i :: i in s && i !in passed ==> !Unread(m, i)
  }

  ghost predicate Holding(m: seq<Entry>, dirs: Forest, c: Spot, f: Forest) {
    f.Cons? && At(m, c, f, f.id) && Fill(c, f) == dirs && RootAt(c, f.id) == ROOT
  }

  /** The walk comes to the first of `f`. All that it met before is known, but for `passed`. */
  ghost predicate Visiting(m: seq<Entry>, dirs: Forest, c: Spot, f: Forest, passed: seq<nat>) {
    Holding(m, dirs, c, f) && Known(m, Before(c), passed) && forall i :: i in passed ==> i in Before(c)
  }

  /** The walk is done with the first of `f` and all that is below it. */
  ghost predicate Finished(m: seq<Entry>, dirs: Forest, c: Spot, f: Forest, passed: seq<nat>) {
    && Holding(m, dirs, c, f) && Known(m, Before(c) + [f.id] + Preorder(f.kids), passed)
    && forall i :: i in passed ==> i in Before(c) + [f.id] + Preorder(f.kids)
  }

  /** How many entries are still to come. */
  ghost function Remaining(c: Spot, f: Forest): nat {
    |Preorder(f)| + |Pending(c, Whole)|
  }

  lemma VisitNew(m: seq<Entry>, dirs: Forest, c: Spot, f: Forest, passed: seq<nat>)
    requires Visiting(m, dirs, c, f, passed)
    ensures f.id !in Before(c) && f.id !in passed && f.id in All(dirs) && 0 < f.id < |m|
    ensures f.kids.Cons? <==> m[f.id].child.First?
    ensures m[f.id].father == FatherAt(c)
  {
    BeforeIds(c);
    AtDown(m, c, f);
    FillIds(c, f);
  }

  /** On to the first child. */
  lemma VisitDown(m: seq<Entry>, dirs: Forest, c: Spot, f: Forest, passed: seq<nat>)
    requires Visiting(m, dirs, c, f, passed) && f.kids.Cons? && !Unread(m, f.id)
    ensures Visiting(m, dirs, InKids(c, f.id, f.rest), f.kids, passed)
    ensures f.id < |m| && m[f.id].child == First(f.kids.id)
    ensures Remaining(InKids(c, f.id, f.rest), f.kids) < Remaining(c, f)
  {
    hide Lists, SpotLists, Disjoint;
    AtDown(m, c, f);
  }

  /** Nothing is below. */
  lemma VisitBack(m: seq<Entry>, dirs: Forest, c: Spot, f: Forest, passed: seq<nat>)
    requires Visiting(m, dirs, c, f, passed) && f.kids.Nil? && !Unread(m, f.id)
    ensures Finished(m, dirs, c, f, passed)
  {
  }

  lemma AboutFinished(m: seq<Entry>, dirs: Forest, c: Spot, f: Forest, passed: seq<nat>)
    requires Finished(m, dirs, c, f, passed)
    ensures f.Cons? && f.id in All(dirs) && 0 < f.id < |m| && m[f.id].father == FatherAt(c)
    ensures (f.rest.Cons? <==> m[f.id].next != 0) && (f.kids.Cons? <==> m[f.id].child.First?)
    ensures |Preorder(f.rest)| + |Pending(c, Whole)| < Remaining(c, f)
  {
    AtDown(m, c, f);
    FillIds(c, f);
  }

  /** On to the next sibling. */
  lemma FinishOn(m: seq<Entry>, dirs: Forest, c: Spot, f: Forest, passed: seq<nat>)
    requires Finished(m, dirs, c, f, passed) && f.rest.Cons?
    ensures Visiting(m, dirs, InRest(c, f.id, f.kids), f.rest, passed)
    ensures f.id < |m| && m[f.id].next == f.rest.id
    ensures Remaining(InRest(c, f.id, f.kids), f.rest) == |Preorder(f.rest)| + |Pending(c, Whole)|
  {
    hide Lists, SpotLists, Disjoint;
    AtDown(m, c, f);
  }

  lemma AtAbove(m: seq<Entry>, c: Spot, f: Forest)
    requires f.Cons? && At(m, c, f, f.id) && !c.Whole?
    ensures At(m, c.above, if c.InRest? then Cons(c.id, c.kids, f) else Cons(c.id, f, c.rest), c.id)
  {
  }

  /** The root has no father and no siblings. */
  lemma RootLast(m: seq<Entry>, dirs: Forest, c: Spot, f: Forest, passed: seq<nat>)
    requires Finished(m, dirs, c, f, passed) && Rooted(m, dirs) && f.id == ROOT
    ensures ROOT < |m| && m[ROOT].father == 0 && m[ROOT].next == 0
  {
    NotWhole(m, c, f, dirs);
    AboutFinished(m, dirs, c, f, passed);
  }

  /** From a list of siblings up to their father. */
  lemma {:induction false} Climb(m: seq<Entry>, c: Spot, f: Forest) returns (c': Spot, f': Forest)
    requires f.Cons? && At(m, c, f, f.id) && FatherAt(c) != 0
    ensures f'.Cons? && f'.kids.Cons? && f'.id == FatherAt(c) && At(m, c', f', f'.id) && Fill(c', f') == Fill(c, f)
    ensures RootAt(c', f'.id) == RootAt(c, f.id) && SpotDepth(c') < SpotDepth(c)
    ensures Before(c') + [f'.id] + Preorder(f'.kids) == Before(c) + Preorder(f)
    ensures Pending(c, Whole) == Preorder(f'.rest) + Pending(c', Whole)
  {
    AtAbove(m, c, f);
    hide At;
    if c.InRest? {
      c', f' := Climb(m, c.above, Cons(c.id, c.kids, f));
      Regrouped(Before(c.above), c.id, Preorder(c.kids), Preorder(f), []);
    } else {
      c', f' := c.above, Cons(c.id, f, c.rest);
    }
  }

  /** The last sibling is done with, and so its father. */
  lemma FinishUp(m: seq<Entry>, dirs: Forest, c: Spot, f: Forest, passed: seq<nat>) returns (c': Spot, f': Forest)
    requires Finished(m, dirs, c, f, passed) && f.rest.Nil? && FatherAt(c) != 0
    ensures Finished(m, dirs, c', f', passed) && f'.id == FatherAt(c) && f'.kids.Cons? && SpotDepth(c') < SpotDepth(c)
    ensures Pending(c, Whole) == Preorder(f'.rest) + Pending(c', Whole)
    ensures Before(c') + [f'.id] + Preorder(f'.kids) == Before(c) + [f.id] + Preorder(f.kids)
  {
    hide At;
    c', f' := Climb(m, c, f);
    assert Before(c) + [f.id] + Preorder(f.kids) == Before(c) + Preorder(f);
  }

  /** Below an entry, if the other one is. */
  ghost predicate StaysBelow(path: map<nat, string>, id: nat, i: nat, j: nat) {
    id in path && i in path && j in path && (StrictlyBelow(path, id, i) ==> StrictlyBelow(path, id, j))
  }

  /** On its way back up from the first of `f0` the walk is done with the first of `f`. */
  ghost predicate Rising(m: seq<Entry>, dirs: Forest, path: map<nat, string>, rootid: nat, c0: Spot, f0: Forest,
                         c: Spot, f: Forest, passed: seq<nat>) {
    && f0.Cons? && Finished(m, dirs, c, f, passed) && StaysBelow(path, rootid, f0.id, f.id)
    && (f.id == ROOT || f.id == rootid ==> f.id == f0.id)
    && |Preorder(f.rest)| + |Pending(c, Whole)| < Remaining(c0, f0)
    && (forall i :: i in Before(c0) + [f0.id] ==> i in Before(c) + [f.id] + Preorder(f.kids))
  }

  /** Where the walk goes next: not back, and not out of a subtree it is in. */
  ghost predicate Onward(path: map<nat, string>, rootid: nat, c0: Spot, f0: Forest, c: Spot, f: Forest) {
    && f0.Cons? && f.Cons? && StaysBelow(path, rootid, f0.id, f.id) && Remaining(c, f) < Remaining(c0, f0)
    && (forall i :: i in Before(c0) + [f0.id] ==> i in Before(c))
  }

  /** The walk ends with the root of the tree, or the directory it started from. */
  ghost predicate Ends(m: seq<Entry>, f: Forest, rootid: nat, current: nat) {
    && f.Cons? && f.id < |m|
    && (f.id == ROOT || (f.id == rootid && (f.kids.Cons? || (current == rootid && m[rootid].next != 0))))
  }

  lemma RiseFrom(m: seq<Entry>, dirs: Forest, path: map<nat, string>, rootid: nat, c: Spot, f: Forest, passed: seq<nat>)
    requires Finished(m, dirs, c, f, passed) && path.Keys == All(dirs) && rootid in path
    ensures Rising(m, dirs, path, rootid, c, f, c, f, passed)
  {
    AboutFinished(m, dirs, c, f, passed);
  }

  lemma RisingAt(m: seq<Entry>, dirs: Forest, path: map<nat, string>, rootid: nat, c0: Spot, f0: Forest,
                 c: Spot, f: Forest, passed: seq<nat>)
    requires Rising(m, dirs, path, rootid, c0, f0, c, f, passed) && Rooted(m, dirs)
    ensures f0.Cons? && f.Cons? && f.id in All(dirs) && 0 < f.id < |m| && m[f.id].father == FatherAt(c)
    ensures f.rest.Cons? <==> m[f.id].next != 0
    ensures Finished(m, dirs, c, f, passed) && (f.id == ROOT || f.id == rootid ==> f.id == f0.id)
    ensures f.id == rootid && m[f.id].next != 0 ==> Ends(m, f, rootid, f0.id)
    ensures m[f.id].father == 0 ==> f0.id == ROOT
  {
    AboutFinished(m, dirs, c, f, passed);
    var _, _ := Find(m, dirs, f.id);
  }

  lemma FatherBelow(m: seq<Entry>, live: set<nat>, path: map<nat, string>, rootid: nat, i: nat)
    requires PathsOk(m, live, path) && rootid in live && i in live && i != ROOT && m[i].father != rootid
    ensures m[i].father in live && (StrictlyBelow(path, rootid, i) <==> StrictlyBelow(path, rootid, m[i].father))
  {
    assert PathOk(m, path, i);
    var f := m[i].father;
    PathLength(m, live, path, i);
    PathLength(m, live, path, f);
    PathLength(m, live, path, rootid);
    if rootid != ROOT {
      if IsBelow(path[rootid], path[i]) {
        BelowJoin(path[rootid], path[f], m[i].name);
        if path[rootid] == path[f] { PathInjective(m, live, path, rootid, f); }
      } else if IsBelow(path[rootid], path[f]) {
        JoinBelow(path[rootid], path[f], m[i].name);
      }
    }
  }

  /** Up to a father the walk does not end with. */
  lemma Rise(m: seq<Entry>, dirs: Forest, path: map<nat, string>, rootid: nat, c0: Spot, f0: Forest,
             c: Spot, f: Forest, passed: seq<nat>)
    returns (c': Spot, f': Forest)
    requires Rising(m, dirs, path, rootid, c0, f0, c, f, passed) && PathsOk(m, All(dirs), path) && Rooted(m, dirs)
    requires f.rest.Nil? && FatherAt(c) != 0 && FatherAt(c) != rootid && FatherAt(c) != ROOT
    ensures Rising(m, dirs, path, rootid, c0, f0, c', f', passed) && f'.id == FatherAt(c) && SpotDepth(c') < SpotDepth(c)
  {
    hide Finished, Remaining, PathsOk, Rooted, StrictlyBelow;
    AboutFinished(m, dirs, c, f, passed);
    c', f' := FinishUp(m, dirs, c, f, passed);
    var _, _ := Find(m, dirs, f.id);
    LiveKeys(m, All(dirs), path);
    FatherBelow(m, All(dirs), path, rootid, f.id);
  }

  /** Up to the father the walk ends with. */
  lemma RiseLast(m: seq<Entry>, dirs: Forest, path: map<nat, string>, rootid: nat, c0: Spot, f0: Forest,
                 c: Spot, f: Forest, passed: seq<nat>)
    returns (c': Spot, f': Forest)
    requires Rising(m, dirs, path, rootid, c0, f0, c, f, passed) && f.rest.Nil?
    requires FatherAt(c) == ROOT || (FatherAt(c) == rootid && rootid != 0)
    ensures Finished(m, dirs, c', f', passed) && Ends(m, f', rootid, f0.id)
  {
    c', f' := FinishUp(m, dirs, c, f, passed);
    AboutFinished(m, dirs, c', f', passed);
  }

  lemma RiseOn(m: seq<Entry>, dirs: Forest, path: map<nat, string>, rootid: nat, c0: Spot, f0: Forest,
               c: Spot, f: Forest, passed: seq<nat>)
    requires Rising(m, dirs, path, rootid, c0, f0, c, f, passed) && PathsOk(m, All(dirs), path) && Rooted(m, dirs)
    requires f.rest.Cons?
    ensures Visiting(m, dirs, InRest(c, f.id, f.kids), f.rest, passed) && f.id < |m| && m[f.id].next == f.rest.id
    ensures Onward(path, rootid, c0, f0, InRest(c, f.id, f.kids), f.rest)
  {
    hide PathsOk, StrictlyBelow;
    AboutFinished(m, dirs, c, f, passed);
    FinishOn(m, dirs, c, f, passed);
    VisitNew(m, dirs, InRest(c, f.id, f.kids), f.rest, passed);
    SameFather(m, dirs, path, rootid, f.id, f.rest.id);
  }

  lemma SameFather(m: seq<Entry>, dirs: Forest, path: map<nat, string>, rootid: nat, i: nat, j: nat)
    requires PathsOk(m, All(dirs), path) && Rooted(m, dirs) && rootid in path && i in All(dirs) && j in All(dirs)
    requires i < |m| && j < |m| && m[i].father == m[j].father
    ensures StaysBelow(path, rootid, i, j)
  {
    hide StrictlyBelow;
    var _, _ := Find(m, dirs, i);
    var _, _ := Find(m, dirs, j);
    if i != ROOT && m[i].father != rootid {
      FatherBelow(m, All(dirs), path, rootid, i);
      FatherBelow(m, All(dirs), path, rootid, j);
    } else if i != ROOT {
      ChildBelow(m, All(dirs), path, rootid, j);
    }
  }

  lemma ChildBelow(m: seq<Entry>, live: set<nat>, path: map<nat, string>, rootid: nat, i: nat)
    requires PathsOk(m, live, path) && rootid in live && i in live && i != ROOT && m[i].father == rootid
    ensures StrictlyBelow(path, rootid, i)
  {
    assert PathOk(m, path, i);
    PathLength(m, live, path, rootid);
    if rootid != ROOT { JoinBelow(path[rootid], path[rootid], m[i].name); }
  }

  // ---------------------------------------------------------------- reading a directory on the way

  /** The links spell only one forest. */
  lemma {:induction false} ListsUnique(m: seq<Entry>, f: Forest, g: Forest, first: nat, father: nat)
    requires Lists(m, f, first, father) && Lists(m, g, first, father)
    ensures f == g
  {
    ListsIds(m, f, first, father);
    ListsIds(m, g, first, father);
    if f.Cons? {
      ListsUnique(m, f.kids, g.kids, FirstId(m[f.id].child), f.id);
      ListsUnique(m, f.rest, g.rest, m[f.id].next, father);
    }
  }

  /** With nothing below them, the entries of a list are all there is. */
  lemma {:induction false} Flat(m: seq<Entry>, f: Forest, first: nat, father: nat)
    requires Lists(m, f, first, father) && forall i :: i in Siblings(f) && i < |m| ==> !m[i].child.First?
    ensures All(f) == Siblings(f)
  {
    if f.Cons? {
      assert f.kids.Nil?;
      Flat(m, f.rest, m[f.id].next, father);
    }
  }

  /** The directory `father` has got the entries it was found to hold; all else is as it was. */
  ghost predicate Filled(m: seq<Entry>, m': seq<Entry>, live: set<nat>, live': set<nat>, father: nat) {
    && live <= live' && |m| <= |m'| && Unread(m, father)
    && (forall i :: i in live ==> i < |m| && (i != father ==> m'[i] == m[i]))
    && m'[father] == m[father].(child := m'[father].child)
    && (forall i :: i in live' && i !in live ==> i < |m'| && m'[i].father == father && m'[i].child.NotFetched?)
  }

  lemma FilledBy(t: Snapshot, t': Snapshot, disk: Disk, father: nat)
    requires Grew(t, t', disk) && ToRead(t, disk, father) && forall i :: WasRead(t, t', i) ==> i == father
    requires forall i :: i in t'.path && i !in t.path ==> i < |t'.entry| && t'.entry[i].father == father && t'.entry[i].child.NotFetched?
    ensures Filled(t.entry, t'.entry, t.path.Keys, t'.path.Keys, father)
  {
    forall i | i in t.path
      ensures KeptEntry(t, t', i)
    {
    }
  }

  lemma ReadNow(t: Snapshot, t': Snapshot, i: nat)
    requires WasRead(t, t', i)
    ensures i < |t'.entry| && !t'.entry[i].child.NotFetched?
  {
  }

  /** The children of a directory that was just read. */
  lemma NewKids(m: seq<Entry>, m': seq<Entry>, dirs: Forest, dirs': Forest, father: nat) returns (k: Forest)
    requires Rooted(m, dirs) && Rooted(m', dirs') && father in All(dirs) && Filled(m, m', All(dirs), All(dirs'), father)
    ensures Lists(m', k, FirstId(m'[father].child), father) && Disjoint(k) && (k.Cons? <==> m'[father].child.First?)
    ensures All(k) == All(dirs') - All(dirs)
  {
    var c1, f1 := ChildList(m', dirs', father);
    AtDown(m', c1, f1);
    FillIds(c1, f1);
    k := f1.kids;
    NoChildren(m, dirs, father);
    SiblingsListed(k);
    forall i | i in All(dirs')
      ensures i in Siblings(k) <==> i !in All(dirs)
    {
      if i in All(dirs) { assert m'[i].father == m[i].father; }
    }
    Flat(m', k, FirstId(m'[father].child), father);
  }

  /** The spot a directory is at stays the same when it is read. */
  lemma FilledAt(m: seq<Entry>, m': seq<Entry>, dirs: Forest, dirs': Forest, c: Spot, f: Forest) returns (f': Forest)
    requires Holding(m, dirs, c, f) && Rooted(m, dirs) && Rooted(m', dirs')
    requires Filled(m, m', All(dirs), All(dirs'), f.id)
    ensures Holding(m', dirs', c, f') && f'.id == f.id && f'.rest == f.rest
    ensures f'.kids.Cons? <==> m'[f.id].child.First?
  {
    FillIds(c, f);
    var k := NewKids(m, m', dirs, dirs', f.id);
    f' := Cons(f.id, k, f.rest);
    FilledLists(m, m', c, f, k);
    AtWhole(m', c, f', f.id, ROOT);
    hide SpotLists, SpotDisjoint, Disjoint;
    ListsUnique(m', Fill(c, f'), dirs', ROOT, 0);
  }

  lemma FilledLists(m: seq<Entry>, m': seq<Entry>, c: Spot, f: Forest, k: Forest)
    requires f.Cons? && At(m, c, f, f.id) && |m| <= |m'| && f.id < |m|
    requires forall i :: i in SpotIds(c) + All(f.rest) && i < |m| ==> m'[i] == m[i]
    requires m'[f.id] == m[f.id].(child := m'[f.id].child) && (k.Cons? <==> m'[f.id].child.First?)
    requires Lists(m', k, FirstId(m'[f.id].child), f.id) && Disjoint(k) && All(k) !! SpotIds(c) + All(f.rest) + {f.id}
    ensures At(m', c, Cons(f.id, k, f.rest), f.id)
  {
    AtDown(m, c, f);
    SpotListsFrame(m, m', c, f.id);
    ListsFrame(m, m', f.rest, m[f.id].next, FatherAt(c));
  }

  /** The walk goes on in the tree that has grown. */
  lemma VisitRead(m: seq<Entry>, m': seq<Entry>, dirs: Forest, dirs': Forest, c: Spot, f: Forest, passed: seq<nat>)
    returns (f': Forest)
    requires Visiting(m, dirs, c, f, passed) && Rooted(m, dirs) && Rooted(m', dirs')
    requires Filled(m, m', All(dirs), All(dirs'), f.id)
    ensures Visiting(m', dirs', c, f', passed) && f'.id == f.id && f'.rest == f.rest
    ensures f'.kids.Cons? <==> m'[f.id].child.First?
  {
    hide At;
    f' := FilledAt(m, m', dirs, dirs', c, f);
    VisitNew(m, dirs, c, f, passed);
    BeforeIds(c);
    FillIds(c, f);
  }

  // ---------------------------------------------------------------- what a whole walk reads

  /** The walk leaves the directory it started from: it is empty and the last of its siblings. */
  ghost predicate Escapes(t: Snapshot, id: nat) {
    && id < |t.entry| && id != ROOT && t.entry[id].child.Empty? && t.entry[id].next == 0
    && t.entry[id].father != ROOT && t.entry[id].father != 0
  }

  ghost predicate AtOrBelow(path: map<nat, string>, id: nat, i: nat) {
    id in path && i in path && (i == id || StrictlyBelow(path, id, i))
  }

  /** What a walk that leaves its directory reads is what comes after it; else what is in it. */
  ghost predicate InReach(t: Snapshot, id: nat, passed: seq<nat>, i: nat) {
    if Escapes(t, id) then i in t.path && i !in passed else AtOrBelow(t.path, id, i)
  }

  /** Nothing but what is in reach was read; if the walk came to its end, all of that, and else there is
      no directory in reach that could be opened, or the root directory is empty. */
  ghost predicate FetchResult(t0: Snapshot, t: Snapshot, disk: Disk, id: nat, passed: seq<nat>, done: bool) {
    && (forall i :: WasRead(t0, t, i) ==> InReach(t, id, passed, i))
    && (done ==> forall i :: InReach(t, id, passed, i) || AtOrBelow(t.path, id, i) ==> !Unread(t.entry, i))
    && (done ==> !(id == ROOT && ROOT < |t.entry| && t.entry[ROOT].child.Empty?))
    && (!done ==> (id == ROOT && ROOT < |t.entry| && t.entry[ROOT].child.Empty?) ||
                  exists i :: InReach(t, id, passed, i) && Unread(t.entry, i) && i in t.path && t.path[i] !in disk)
  }

  /** What has been read by the time the walk comes to the first of `f`. */
  ghost predicate Fetching(t0: Snapshot, t: Snapshot, dirs: Forest, disk: Disk, id: nat, c: Spot, f: Forest, passed: seq<nat>) {
    && Grew(t0, t, disk) && Visiting(t.entry, dirs, c, f, passed) && id in t0.path && id < |t.entry|
    && (forall i :: i in passed ==> i in t0.path && !AtOrBelow(t0.path, id, i))
    && (forall i :: WasRead(t0, t, i) ==> i !in passed && (Escapes(t, id) || AtOrBelow(t.path, id, i)))
    && (f.id == id || (t.entry[id].child.First? && AtOrBelow(t.path, id, f.id)) || (Escapes(t, id) && id in Before(c)))
  }

  ghost predicate Sound(t: Snapshot, dirs: Forest) {
    WellNamed(t.entry, t.hash, dirs, t.path, {})
  }

  lemma FetchStart(t: Snapshot, dirs: Forest, disk: Disk, id: nat) returns (c: Spot, f: Forest)
    requires Sound(t, dirs) && id in t.path && id < |t.entry| && Grew(t, t, disk) && forall i :: !WasRead(t, t, i)
    ensures Fetching(t, t, dirs, disk, id, c, f, Before(c)) && f.Cons? && f.id == id && Before(c) + [id] <= Preorder(dirs)
  {
    hide Grew, WasRead, StrictlyBelow, Rooted, PathsOk, At, Preorder, Before, RootAt, Fill, Pending;
    LiveKeys(t.entry, All(dirs), t.path);
    c, f := Find(t.entry, dirs, id);
    BeforeStart(t.entry, dirs, c, f);
    BelowByPath(t.entry, t.hash, dirs, t.path, c, f);
  }

  lemma BeforeStart(m: seq<Entry>, dirs: Forest, c: Spot, f: Forest)
    requires Holding(m, dirs, c, f)
    ensures Visiting(m, dirs, c, f, Before(c)) && Before(c) + [f.id] <= Preorder(dirs)
    ensures forall i :: i in Before(c) ==> i in All(dirs) && i != f.id && i !in All(f.kids)
  {
    BeforeFill(c, f);
    assert Preorder(f)[0] == f.id;
    BeforeIds(c);
    FillIds(c, f);
  }

  /** The directory the walk has come to has been read. */
  lemma FetchMore(t0: Snapshot, t: Snapshot, t1: Snapshot, dirs: Forest, dirs1: Forest, disk: Disk, id: nat, c: Spot,
                  f: Forest, f1: Forest, passed: seq<nat>)
    requires Fetching(t0, t, dirs, disk, id, c, f, passed) && Grew(t, t1, disk) && f.Cons? && Unread(t.entry, f.id)
    requires (forall i :: WasRead(t, t1, i) ==> i == f.id) && f.id in t.path
    requires Visiting(t1.entry, dirs1, c, f1, passed) && f1.Cons? && f1.id == f.id
    ensures Fetching(t0, t1, dirs1, disk, id, c, f1, passed) && id in t1.path
  {
    hide StrictlyBelow, Visiting, Grew;
    GrewOn(t0, t, t1, disk);
    KindKept(t0, t, disk, id);
    GrewKeeps(t, t1, disk, id);
    VisitNew(t.entry, dirs, c, f, passed);
    forall i | WasRead(t0, t1, i)
      ensures i !in passed && (Escapes(t1, id) || AtOrBelow(t1.path, id, i))
    {
      if WasRead(t0, t, i) {
        assert AtOrBelow(t.path, id, i) ==> AtOrBelow(t1.path, id, i) by { SameBelow(t.path, t1.path, id, i); }
      } else {
        assert i == f.id;
        SameBelow(t.path, t1.path, id, i);
      }
    }
    SameBelow(t.path, t1.path, id, f.id);
  }

  lemma FetchAt(t0: Snapshot, t: Snapshot, dirs: Forest, disk: Disk, id: nat, c: Spot, f: Forest, passed: seq<nat>)
    requires Fetching(t0, t, dirs, disk, id, c, f, passed)
    ensures Visiting(t.entry, dirs, c, f, passed) && f.Cons? && f.id in All(dirs) && f.id < |t.entry|
    ensures Grew(t0, t, disk) && id in t0.path && id in t.path && id < |t.entry|
  {
    VisitNew(t.entry, dirs, c, f, passed);
    KindKept(t0, t, disk, id);
  }

  lemma AtSpot(m: seq<Entry>, dirs: Forest, c: Spot, f: Forest, passed: seq<nat>)
    requires Visiting(m, dirs, c, f, passed)
    ensures f.Cons?
  {
  }

  lemma SameBelow(path: map<nat, string>, path': map<nat, string>, id: nat, i: nat)
    requires Extends(path, path') && id in path && i in path
    ensures AtOrBelow(path, id, i) <==> AtOrBelow(path', id, i)
  {
  }

  /** On to the first child. */
  lemma FetchDown(t0: Snapshot, t: Snapshot, dirs: Forest, disk: Disk, id: nat, c: Spot, f: Forest, passed: seq<nat>)
    requires Fetching(t0, t, dirs, disk, id, c, f, passed) && Sound(t, dirs) && f.Cons?
    requires f.id < |t.entry| && !Unread(t.entry, f.id) && t.entry[f.id].child.First?
    ensures f.kids.Cons? && t.entry[f.id].child == First(f.kids.id)
    ensures Fetching(t0, t, dirs, disk, id, InKids(c, f.id, f.rest), f.kids, passed)
    ensures Remaining(InKids(c, f.id, f.rest), f.kids) < Remaining(c, f)
  {
    hide Grew, WasRead, StrictlyBelow, Visiting, Rooted, PathsOk, Remaining;
    VisitNew(t.entry, dirs, c, f, passed);
    VisitDown(t.entry, dirs, c, f, passed);
    VisitNew(t.entry, dirs, InKids(c, f.id, f.rest), f.kids, passed);
    LiveKeys(t.entry, All(dirs), t.path);
    var _, _ := Find(t.entry, dirs, f.kids.id);
    KindKept(t0, t, disk, id);
    if f.id == id {
      ChildBelow(t.entry, All(dirs), t.path, id, f.kids.id);
    } else {
      FatherBelow(t.entry, All(dirs), t.path, id, f.kids.id);
    }
  }

  /** Nothing is below. */
  lemma FetchLeaf(t0: Snapshot, t: Snapshot, dirs: Forest, disk: Disk, id: nat, c: Spot, f: Forest, passed: seq<nat>)
    requires Fetching(t0, t, dirs, disk, id, c, f, passed) && f.Cons?
    requires f.id < |t.entry| && !Unread(t.entry, f.id) && !t.entry[f.id].child.First?
    ensures Finished(t.entry, dirs, c, f, passed)
  {
    hide Grew, WasRead, StrictlyBelow;
    VisitNew(t.entry, dirs, c, f, passed);
    VisitBack(t.entry, dirs, c, f, passed);
  }

  /** On to what comes after. */
  lemma FetchOn(t0: Snapshot, t: Snapshot, dirs: Forest, disk: Disk, id: nat, c0: Spot, f0: Forest, c: Spot, f: Forest,
                passed: seq<nat>)
    requires Fetching(t0, t, dirs, disk, id, c0, f0, passed) && Visiting(t.entry, dirs, c, f, passed)
    requires Onward(t.path, id, c0, f0, c, f) && (f0.id == id ==> Escapes(t, id))
    ensures Fetching(t0, t, dirs, disk, id, c, f, passed)
  {
    hide Grew, WasRead, StrictlyBelow, Visiting;
  }

  /** The walk has come to its end. */
  lemma FetchEnd(t0: Snapshot, t: Snapshot, dirs: Forest, disk: Disk, id: nat, c0: Spot, f0: Forest, c: Spot, f: Forest,
                 passed: seq<nat>)
    requires Fetching(t0, t, dirs, disk, id, c0, f0, passed) && f0.Cons? && Sound(t, dirs)
    requires Finished(t.entry, dirs, c, f, passed) && Ends(t.entry, f, id, f0.id) && f0.id != ROOT
    ensures FetchResult(t0, t, disk, id, passed, true)
  {
    hide Grew, WasRead, StrictlyBelow, Visiting, Finished;
    AboutFinished(t.entry, dirs, c, f, passed);
    ReachKept(t0, t, dirs, disk, id, c0, f0, passed);
    if f.id == ROOT {
      AllFinished(t.entry, dirs, c, f, passed);
    } else {
      BelowFinished(t, dirs, c, f, passed);
    }
  }

  /** What was passed is not what the walk started from, or below it. */
  lemma ReachKept(t0: Snapshot, t: Snapshot, dirs: Forest, disk: Disk, id: nat, c: Spot, f: Forest, passed: seq<nat>)
    requires Fetching(t0, t, dirs, disk, id, c, f, passed)
    ensures forall i :: i in passed ==> !AtOrBelow(t.path, id, i)
    ensures forall i :: WasRead(t0, t, i) ==> InReach(t, id, passed, i)
  {
    forall i | i in passed
      ensures !AtOrBelow(t.path, id, i)
    {
      assert Extends(t0.path, t.path);
      SameBelow(t0.path, t.path, id, i);
    }
  }

  lemma AllFinished(m: seq<Entry>, dirs: Forest, c: Spot, f: Forest, passed: seq<nat>)
    requires Finished(m, dirs, c, f, passed) && Rooted(m, dirs) && f.id == ROOT
    ensures forall i :: i in All(dirs) && i !in passed ==> !Unread(m, i)
  {
    NotWhole(m, c, f, dirs);
    PreorderIds(f.kids);
  }

  lemma BelowFinished(t: Snapshot, dirs: Forest, c: Spot, f: Forest, passed: seq<nat>)
    requires Finished(t.entry, dirs, c, f, passed) && Sound(t, dirs) && f.id in t.path
    ensures forall i :: AtOrBelow(t.path, f.id, i) && i !in passed ==> !Unread(t.entry, i)
  {
    hide StrictlyBelow, Rooted, PathsOk;
    BelowByPath(t.entry, t.hash, dirs, t.path, c, f);
    PreorderIds(f.kids);
  }

  /** The walk has come to a directory that cannot be opened. */
  lemma FetchBroken(t0: Snapshot, t: Snapshot, dirs: Forest, disk: Disk, id: nat, c: Spot, f: Forest, passed: seq<nat>)
    requires Fetching(t0, t, dirs, disk, id, c, f, passed) && f.Cons?
    requires f.id in t.path && Unread(t.entry, f.id) && t.path[f.id] !in disk
    ensures FetchResult(t0, t, disk, id, passed, false)
  {
    hide Grew, WasRead, StrictlyBelow, Visiting;
    VisitNew(t.entry, dirs, c, f, passed);
    ReachKept(t0, t, dirs, disk, id, c, f, passed);
    KindKept(t0, t, disk, id);
    assert InReach(t, id, passed, f.id);
  }

  /** The walk has climbed above the root. */
  lemma FetchCrash(t0: Snapshot, t: Snapshot, dirs: Forest, disk: Disk, id: nat, c: Spot, f: Forest, passed: seq<nat>)
    requires Fetching(t0, t, dirs, disk, id, c, f, passed) && f.Cons? && Sound(t, dirs)
    requires f.id == ROOT && id < |t.entry| && t.entry[id].kind.Directory? && f.id < |t.entry|
    requires !t.entry[f.id].child.First? && !Unread(t.entry, f.id)
    ensures FetchResult(t0, t, disk, id, passed, false)
  {
    hide Grew, WasRead, Visiting, Finished, PathsOk;
    ReachKept(t0, t, dirs, disk, id, c, f, passed);
    FetchLeaf(t0, t, dirs, disk, id, c, f, passed);
    RootFirst(t, dirs, c, f, passed);
  }

  lemma RootFirst(t: Snapshot, dirs: Forest, c: Spot, f: Forest, passed: seq<nat>)
    requires Finished(t.entry, dirs, c, f, passed) && Sound(t, dirs) && f.id == ROOT
    ensures Before(c) == [] && forall id :: id != ROOT ==> !AtOrBelow(t.path, id, ROOT)
  {
    NotWhole(t.entry, c, f, dirs);
    forall id | id in t.path && id != ROOT
      ensures !StrictlyBelow(t.path, id, ROOT)
    {
      PathLength(t.entry, All(dirs), t.path, id);
      assert |t.path[id] + "/"| > 1;
    }
  }

  // ---------------------------------------------------------------- what a rename reads

  /** No directory at or below the entry is left to read. */
  ghost predicate AllKnown(t: Snapshot, id: nat) {
    forall i :: AtOrBelow(t.path, id, i) ==> !Unread(t.entry, i)
  }

  /** `i` is met when all that is below `q` is to be read. */
  ghost predicate MetFrom(t: Snapshot, q: string, i: nat) {
    exists id :: id in t.path && t.path[id] == q && i in t.path && (Escapes(t, id) || AtOrBelow(t.path, id, i))
  }

  /** Some directory met then cannot be opened. */
  ghost predicate Barred(t: Snapshot, disk: Disk, q: string) {
    exists i :: MetFrom(t, q, i) && Unread(t.entry, i) && i in t.path && t.path[i] !in disk
  }

  /** What is read for a rename is above either path, or met from the entry. */
  ghost predicate ReadForRename(t: Snapshot, t': Snapshot, q: string, to: string) {
    forall i :: WasRead(t, t', i) ==> Above(t'.path[i], q) || Above(t'.path[i], to) || MetFrom(t', q, i)
  }

  lemma ReadForFirst(t: Snapshot, t1: Snapshot, t2: Snapshot, disk: Disk, q: string, to: string, id: nat)
    requires Grew(t, t1, disk) && Grew(t1, t2, disk) && OnlyAbove(t, t1, q) && id in t1.path && t1.path[id] == q
    requires forall i :: WasRead(t1, t2, i) ==> Escapes(t2, id) || AtOrBelow(t2.path, id, i)
    ensures Grew(t, t2, disk) && ReadForRename(t, t2, q, to) && t2.path[id] == q
  {
    GrewOn(t, t1, t2, disk);
    forall i | WasRead(t, t2, i)
      ensures Above(t2.path[i], q) || MetFrom(t2, q, i)
    {
      if WasRead(t, t1, i) { assert t2.path[i] == t1.path[i]; }
    }
  }

  lemma ReadAboveFirst(t: Snapshot, t': Snapshot, q: string, to: string)
    requires OnlyAbove(t, t', q)
    ensures ReadForRename(t, t', q, to)
  {
  }

  lemma EscapesOn(t: Snapshot, t': Snapshot, disk: Disk, id: nat)
    requires Grew(t, t', disk) && Escapes(t, id) && id in t.path
    ensures Escapes(t', id)
  {
    assert KeptEntry(t, t', id);
  }

  lemma MetOn(t: Snapshot, t': Snapshot, disk: Disk, q: string, i: nat)
    requires Grew(t, t', disk) && MetFrom(t, q, i)
    ensures MetFrom(t', q, i)
  {
    hide StrictlyBelow, Escapes;
    assert Extends(t.path, t'.path);
    var id :| id in t.path && t.path[id] == q && (Escapes(t, id) || AtOrBelow(t.path, id, i));
    SameBelow(t.path, t'.path, id, i);
    if Escapes(t, id) { EscapesOn(t, t', disk, id); }
  }

  lemma ReadForMore(t: Snapshot, t1: Snapshot, t2: Snapshot, disk: Disk, q: string, to: string)
    requires Grew(t, t1, disk) && Grew(t1, t2, disk) && ReadForRename(t, t1, q, to) && OnlyAbove(t1, t2, to)
    ensures Grew(t, t2, disk) && ReadForRename(t, t2, q, to) && Extends(t1.path, t2.path)
  {
    hide MetFrom;
    GrewOn(t, t1, t2, disk);
    forall i | WasRead(t, t2, i)
      ensures Above(t2.path[i], q) || Above(t2.path[i], to) || MetFrom(t2, q, i)
    {
      if WasRead(t, t1, i) {
        assert t2.path[i] == t1.path[i];
        if MetFrom(t1, q, i) { MetOn(t1, t2, disk, q, i); }
      }
    }
  }

  /** Reading above a path that is not below the entry brings nothing new below the entry. */
  lemma KnownStays(t: Snapshot, t': Snapshot, disk: Disk, to: string, id: nat)
    requires Grew(t, t', disk) && OnlyAbove(t, t', to) && ROOT in t.path
    requires id in t.path && id != ROOT && !IsBelow(t.path[id], to) && AllKnown(t, id)
    ensures AllKnown(t', id)
  {
    hide PathsOk;
    forall i | AtOrBelow(t'.path, id, i)
      ensures !Unread(t'.entry, i)
    {
      if i in t.path {
        assert Extends(t.path, t'.path) && KeptEntry(t, t', i);
        SameBelow(t.path, t'.path, id, i);
      } else {
        assert FromDisk(t, t', disk, i);
        NotBelowNew(t'.entry, t'.path.Keys, t'.path, id, to, i);
      }
    }
  }

  lemma NotBelowNew(m: seq<Entry>, live: set<nat>, path: map<nat, string>, id: nat, to: string, i: nat)
    requires PathsOk(m, live, path) && id in live && id != ROOT && i in live && i != ROOT && i != id
    requires Above(path[m[i].father], to) && !IsBelow(path[id], to)
    ensures !IsBelow(path[id], path[i])
  {
    var f := m[i].father;
    assert PathOk(m, path, i);
    PathLength(m, live, path, f);
    PathLength(m, live, path, id);
    BelowTwice(path[id], path[f], to);
    if IsBelow(path[id], path[i]) {
      BelowJoin(path[id], path[f], m[i].name);
    }
  }

  // ---------------------------------------------------------------- how often directories can be read

  /** The directories of the source that no entry was read from. */
  ghost function LeftToRead(t: Snapshot, disk: Disk): set<string> {
    set p | p in disk && forall i :: i in t.path && t.path[i] == p ==> Unread(t.entry, i)
  }

  /** A directory is read once. */
  lemma LessToRead(t: Snapshot, t': Snapshot, live: set<nat>, disk: Disk, id: nat)
    requires Grew(t, t', disk) && PathsOk(t.entry, live, t.path) && ToRead(t, disk, id) && WasRead(t, t', id)
    ensures |LeftToRead(t', disk)| < |LeftToRead(t, disk)|
  {
    var s, s' := LeftToRead(t, disk), LeftToRead(t', disk);
    forall p | p in s'
      ensures p in s
    {
      forall i | i in t.path && t.path[i] == p
        ensures Unread(t.entry, i)
      {
        assert KeptEntry(t, t', i) && t'.path[i] == p;
      }
    }
    forall i | i in t.path && t.path[i] == t.path[id]
      ensures i == id
    {
      PathInjective(t.entry, live, t.path, i, id);
    }
    assert t.path[id] in s && t.path[id] !in s';
    Fewer(s', s, t.path[id]);
  }

  lemma Fewer(s: set<string>, s': set<string>, p: string)
    requires s <= s' && p in s' && p !in s
    ensures |s| < |s'|
  {
    assert s <= s' - {p};
    Subset(s, s' - {p});
  }

  lemma {:induction false} Subset(s: set<string>, s': set<string>)
    requires s <= s'
    ensures |s| <= |s'|
    decreases s
  {
    if s != {} {
      var p :| p in s;
      Subset(s - {p}, s' - {p});
    }
  }
}
