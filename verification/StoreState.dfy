/** What a metadata store looks like: directory tree, paths, path hashes and free list. */
module StoreState {
  import opened DirForest
  import opened PathHash
  import opened PathNames
  import opened Sequences

  const ROOT: nat := 1
  const BLOCK: nat := 256

  /** The directory tree hangs below the root entry. */
  ghost predicate Rooted(entry: seq<Entry>, dirs: Forest) {
    At(entry, Whole, dirs, ROOT) && dirs.Cons? && dirs.rest.Nil?
  }

  /** Every entry but the root lies in a directory, its path is the directory's plus its name, and
      no two entries of a directory share a name. */
  ghost predicate PathsOk(entry: seq<Entry>, live: set<nat>, path: map<nat, string>) {
    && path.Keys == live && ROOT in live && path[ROOT] == "/"
    && (forall i :: i in live ==> 0 < i < |entry|)
    && (forall i :: i in live && i != ROOT ==> PathOk(entry, path, i))
    && (forall i, j :: i in live && j in live && i != ROOT && j != ROOT && i != j ==> !SameName(entry, i, j))
  }

  ghost predicate PathOk(entry: seq<Entry>, path: map<nat, string>, i: nat) {
    && i < |entry| && i in path && entry[i].father in path && ValidName(entry[i].name)
    && path[i] == Join(path[entry[i].father], entry[i].name)
  }

  ghost predicate SameName(entry: seq<Entry>, i: nat, j: nat) {
    i < |entry| && j < |entry| && entry[i].father == entry[j].father && entry[i].name == entry[j].name
  }

  /** The stored hash of every entry, those in `stale` excepted, is the hash of its full path. */
  ghost predicate HashesOk(hash: seq<nat>, path: map<nat, string>, stale: set<nat>) {
    forall i :: i in path && i !in stale ==> i < |hash| && hash[i] == DoHash(path[i])
  }

  /** Only directories have a list of children, possibly an empty one. */
  ghost predicate KindsOk(entry: seq<Entry>, live: set<nat>) {
    forall i :: i in live && i < |entry| ==> entry[i].child.NotFetched? || entry[i].kind.Directory?
  }

  /** A directory tree with its paths and, except for the entries in `stale`, the hashes of these. */
  ghost predicate WellNamed(entry: seq<Entry>, hash: seq<nat>, dirs: Forest, path: map<nat, string>, stale: set<nat>) {
    && Rooted(entry, dirs) && PathsOk(entry, All(dirs), path) && HashesOk(hash, path, stale)
    && KindsOk(entry, All(dirs))
  }

  function Blank(next: nat): Entry {
    Entry("", 0, NotFetched, next, Special)
  }

  /** The free list: wiped entries threaded by `next`. */
  ghost predicate FreeChain(entry: seq<Entry>, s: seq<nat>, first: nat) {
    if s == [] then first == 0 else
    first == s[0] && 0 < first < |entry| && entry[first] == Blank(entry[first].next)
    && FreeChain(entry, s[1..], entry[first].next)
  }

  /** Each entry from 1 on is in exactly one of the directory tree, the free list and `taken`. */
  ghost predicate Partition(n: nat, live: set<nat>, free: seq<nat>, taken: set<nat>) {
    && NoDup(free)
    && (forall i :: i in live ==> i !in free && i !in taken)
    && (forall i :: i in taken ==> i !in free)
    && (forall i :: 0 < i < n <==> i in live || i in free || i in taken)
  }

  // ---------------------------------------------------------------- the free list

  lemma {:induction false} FreeFrame(m: seq<Entry>, m': seq<Entry>, s: seq<nat>, first: nat)
    requires FreeChain(m, s, first) && |m| <= |m'|
    requires forall i :: i in s && i < |m| ==> m'[i] == m[i]
    ensures FreeChain(m', s, first)
    decreases |s|
  {
    if s != [] {
      assert s[0] in s;
      assert forall i :: i in s[1..] ==> i in s;
      FreeFrame(m, m', s[1..], m[first].next);
    }
  }

  /** The entries of a block, in order. */
  ghost function BlockIds(first: nat, last: nat): seq<nat>
    requires first <= last
    decreases last - first
  {
    if first == last then [] else [first] + BlockIds(first + 1, last)
  }

  lemma {:induction false} BlockListed(first: nat, last: nat)
    requires first <= last
    ensures NoDup(BlockIds(first, last))
    ensures forall i :: i in BlockIds(first, last) <==> first <= i < last
    decreases last - first
  {
    if first < last {
      BlockListed(first + 1, last);
      var rest := BlockIds(first + 1, last);
      assert BlockIds(first, last) == [first] + rest;
      assert forall k :: 0 <= k < |rest| ==> rest[k] in rest;
    }
  }

  /** A freshly formatted block is a free list of its own. */
  lemma {:induction false} FreeBlock(m: seq<Entry>, first: nat, last: nat)
    requires 0 < first <= last <= |m|
    requires forall i :: first <= i < last ==> m[i] == Blank(if i < last - 1 then i + 1 else 0)
    ensures FreeChain(m, BlockIds(first, last), if first < last then first else 0)
    decreases last - first
  {
    if first < last {
      FreeBlock(m, first + 1, last);
    }
  }

  /** A new block at the end of an arena without free entries becomes the free list. */
  lemma PartitionGrown(n: nat, n': nat, live: set<nat>, taken: set<nat>, free: seq<nat>)
    requires Partition(n, live, [], taken) && 0 < n <= n' && free == BlockIds(n, n')
    ensures Partition(n', live, free, taken)
    ensures forall i :: i in free ==> n <= i
  {
    hide BlockIds;
    BlockListed(n, n');
  }

  /** The first block as it is formatted. */
  lemma FirstBlock(m: seq<Entry>, hash: seq<nat>)
    requires |m| == BLOCK && m[ROOT] == Entry("/", 0, NotFetched, 0, Directory)
    requires |hash| == BLOCK && hash[ROOT] == DoHash("/")
    ensures WellNamed(m, hash, Cons(ROOT, Nil, Nil), map[ROOT := "/"], {}) && All(Cons(ROOT, Nil, Nil)) == {ROOT}
    ensures Partition(BLOCK, {ROOT}, BlockIds(2, BLOCK), {})
    ensures forall i :: i in BlockIds(2, BLOCK) ==> 1 < i < BLOCK
  {
    hide BlockIds;
    BlockListed(2, BLOCK);
    assert Lists(m, Nil, 0, ROOT) && Lists(m, Nil, 0, 0) && Disjoint(Nil) && All(Nil) == {};
  }

  lemma Popped(n: nat, live: set<nat>, free: seq<nat>, taken: set<nat>)
    requires Partition(n, live, free, taken) && free != []
    ensures Partition(n, live, free[1..], taken + {free[0]}) && free[0] !in live && free[0] !in taken
  {
    assert forall i :: i in free <==> i == free[0] || i in free[1..];
  }

  lemma Entered(n: nat, live: set<nat>, free: seq<nat>, id: nat)
    requires Partition(n, live, free, {id})
    ensures Partition(n, live + {id}, free, {}) && id !in live && id !in free && 0 < id < n
  {
  }

  lemma Pushed(m: seq<Entry>, m': seq<Entry>, live: set<nat>, free: seq<nat>, taken: set<nat>, first: nat, id: nat)
    requires Partition(|m|, live, free, taken) && id in taken && FreeChain(m, free, first) && 0 < id < |m|
    requires m' == m[id := Blank(first)]
    ensures Partition(|m'|, live, [id] + free, taken - {id}) && FreeChain(m', [id] + free, id)
  {
    FreeFrame(m, m', free, first);
    assert ([id] + free)[1..] == free;
    assert forall i :: i in [id] + free <==> i == id || i in free;
  }

  lemma FreeFirst(m: seq<Entry>, live: set<nat>, free: seq<nat>, taken: set<nat>, first: nat)
    requires FreeChain(m, free, first) && Partition(|m|, live, free, taken)
    ensures free == [] <==> first == 0
    ensures first != 0 ==> free[0] == first < |m| && m[first] == Blank(m[first].next)
    ensures first != 0 ==> FreeChain(m, free[1..], m[first].next)
  {
  }

  // ---------------------------------------------------------------- the directory tree

  lemma RootedFrame(m: seq<Entry>, m': seq<Entry>, dirs: Forest)
    requires Rooted(m, dirs) && |m| <= |m'|
    requires forall i :: i in All(dirs) && i < |m| ==> m'[i] == m[i]
    ensures Rooted(m', dirs)
  {
    ListsFrame(m, m', dirs, ROOT, 0);
  }

  /** Finds an entry of the directory tree. */
  lemma Find(m: seq<Entry>, dirs: Forest, id: nat) returns (c: Spot, f: Forest)
    requires Rooted(m, dirs) && id in All(dirs)
    ensures f.Cons? && f.id == id && At(m, c, f, id) && Fill(c, f) == dirs && RootAt(c, id) == ROOT
    ensures c.Whole? <==> id == ROOT
    ensures id < |m| && 0 < id && (m[id].father == 0 <==> id == ROOT) && m[id].father == FatherAt(c)
  {
    c, f := Locate(m, Whole, dirs, id);
    AtDown(m, c, f);
    SpotIdsPositive(m, c, id);
    SpotFathers(m, c, id);
    NotWhole(m, c, f, dirs);
  }

  lemma {:induction false} NotWhole(m: seq<Entry>, c: Spot, f: Forest, dirs: Forest)
    requires f.Cons? && At(m, c, f, f.id) && Fill(c, f) == dirs && Rooted(m, dirs)
    ensures c.Whole? <==> f.id == ROOT
    ensures FatherAt(c) == 0 ==> c.Whole?
  {
    FillIds(c, f);
    SpotIdsPositive(m, c, f.id);
    if !c.Whole? {
      RootAbove(c, f);
      WholeFather(c, f);
    }
  }

  lemma {:induction false} RootAbove(c: Spot, f: Forest)
    requires !c.Whole? && Fill(c, f).Cons?
    ensures Fill(c, f).id in SpotIds(c)
  {
    match c
    case InKids(above, id, r) =>
      if !above.Whole? { RootAbove(above, Cons(id, f, r)); }
    case InRest(above, id, k) =>
      if !above.Whole? { RootAbove(above, Cons(id, k, f)); }
  }

  /** Only the root is a sibling of the root. */
  lemma {:induction false} WholeFather(c: Spot, f: Forest)
    requires f.Cons? && Fill(c, f).Cons? && Fill(c, f).rest.Nil? && !c.Whole? && 0 !in SpotIds(c)
    ensures FatherAt(c) != 0
  {
    match c
    case InKids(above, id, r) =>
    case InRest(above, id, k) => WholeFather(above, Cons(id, k, f));
  }

  // ---------------------------------------------------------------- paths

  lemma PathLength(m: seq<Entry>, live: set<nat>, path: map<nat, string>, i: nat)
    requires PathsOk(m, live, path) && i in live
    ensures |path[i]| > 0 && (path[i] == "/" <==> i == ROOT)
    ensures path[i][0] == '/'
    ensures i != ROOT ==> m[i].father in live && |path[m[i].father]| < |path[i]|
    decreases |path[i]|
  {
    if i != ROOT {
      assert PathOk(m, path, i);
      JoinShape(path[m[i].father], m[i].name);
      if path[m[i].father] != "/" {
        PathLength(m, live, path, m[i].father);
      }
    }
  }

  /** No two entries share a path. */
  lemma {:induction false} PathInjective(m: seq<Entry>, live: set<nat>, path: map<nat, string>, i: nat, j: nat)
    requires PathsOk(m, live, path) && i in live && j in live && path[i] == path[j]
    ensures i == j
    decreases |path[i]|
  {
    PathLength(m, live, path, i);
    PathLength(m, live, path, j);
    if i != ROOT && j != ROOT {
      assert PathOk(m, path, i) && PathOk(m, path, j);
      var f, g := m[i].father, m[j].father;
      PathLength(m, live, path, f);
      PathLength(m, live, path, g);
      JoinInjective(path[f], m[i].name, path[g], m[j].name);
      PathInjective(m, live, path, f, g);
      assert SameName(m, i, j);
    }
  }

  /** The paths are those of the father links: there is only one way to give them. */
  lemma {:induction false} PathUnique(m: seq<Entry>, live: set<nat>, path: map<nat, string>, path': map<nat, string>, i: nat)
    requires PathsOk(m, live, path) && PathsOk(m, live, path') && i in live
    ensures path[i] == path'[i]
    decreases |path[i]|
  {
    PathLength(m, live, path, i);
    if i != ROOT {
      assert PathOk(m, path, i) && PathOk(m, path', i);
      PathUnique(m, live, path, path', m[i].father);
    }
  }

  /** Names and fathers are the same. */
  ghost predicate SameNames(m: seq<Entry>, m': seq<Entry>, s: set<nat>) {
    && |m| <= |m'|
    && forall i :: i in s && i < |m| ==> m'[i].name == m[i].name && m'[i].father == m[i].father
  }

  lemma PathsFrame(m: seq<Entry>, m': seq<Entry>, live: set<nat>, path: map<nat, string>)
    requires PathsOk(m, live, path) && SameNames(m, m', live)
    ensures PathsOk(m', live, path)
  {
    forall i | i in live && i != ROOT
      ensures PathOk(m', path, i)
    {
      assert PathOk(m, path, i);
    }
    forall i, j | i in live && j in live && i != ROOT && j != ROOT && i != j
      ensures !SameName(m', i, j)
    {
      assert !SameName(m, i, j);
    }
  }

  /** A new entry gets a path nobody had. */
  lemma PathsAdded(m: seq<Entry>, m': seq<Entry>, live: set<nat>, path: map<nat, string>, id: nat)
    requires PathsOk(m, live, path) && SameNames(m, m', live) && id !in live && 0 < id < |m'|
    requires m'[id].father in live && ValidName(m'[id].name)
    requires Join(path[m'[id].father], m'[id].name) !in path.Values
    ensures PathsOk(m', live + {id}, path[id := Join(path[m'[id].father], m'[id].name)])
  {
    var path' := path[id := Join(path[m'[id].father], m'[id].name)];
    PathsFrame(m, m', live, path);
    forall i | i in live && i != ROOT
      ensures PathOk(m', path', i) && !SameName(m', i, id)
    {
      assert PathOk(m', path, i);
      assert path[i] in path.Values;
    }
  }

  /** What is left when entries go, together with all that is below them. */
  lemma PathsDropped(m: seq<Entry>, m': seq<Entry>, live: set<nat>, path: map<nat, string>, gone: set<nat>)
    requires PathsOk(m, live, path) && SameNames(m, m', live - gone) && ROOT !in gone
    requires forall i :: i in live && i !in gone && i != ROOT && i < |m| ==> m[i].father !in gone
    ensures PathsOk(m', live - gone, path - gone)
  {
    var live', path' := live - gone, path - gone;
    forall i | i in live' && i != ROOT
      ensures PathOk(m', path', i)
    {
      assert PathOk(m, path, i);
    }
    forall i, j | i in live' && j in live' && i != ROOT && j != ROOT && i != j
      ensures !SameName(m', i, j)
    {
      assert !SameName(m, i, j);
    }
  }

  /** The paths after `from`, and what is below it, has moved to `to`. */
  ghost function Moved(path: map<nat, string>, s: set<nat>, from: string, to: string): map<nat, string> {
    map i | i in path :: if i in s && |from| <= |path[i]| then to + path[i][|from|..] else path[i]
  }

  /** `below` is all that lies below `id`. */
  ghost predicate Subtree(m: seq<Entry>, live: set<nat>, id: nat, below: set<nat>) {
    && id in live && id !in below && below <= live && ROOT != id && ROOT !in below
    && (forall i :: i in below && i < |m| ==> m[i].father in below + {id})
    && (forall i :: i in live - below && i < |m| ==> m[i].father !in below && (i != id ==> m[i].father != id))
  }

  /** The paths below an entry begin with the entry's path and a slash. */
  lemma {:induction false} Beneath(m: seq<Entry>, live: set<nat>, path: map<nat, string>, id: nat, below: set<nat>, i: nat)
    requires PathsOk(m, live, path) && Subtree(m, live, id, below) && i in below
    ensures path[id] + "/" <= path[i]
    decreases |path[i]|
  {
    assert PathOk(m, path, i);
    PathLength(m, live, path, i);
    PathLength(m, live, path, id);
    if m[i].father != id {
      Beneath(m, live, path, id, below, m[i].father);
      PathLength(m, live, path, m[i].father);
    }
  }

  /** Replacing the beginning of a directory's path replaces that of the paths in it. */
  lemma Rebased(dir: string, n: string, from: string, to: string)
    requires from <= dir && |dir| > 1 && |to| > 1
    ensures |from| <= |Join(dir, n)| && to + Join(dir, n)[|from|..] == Join(to + dir[|from|..], n)
  {
    assert Join(dir, n) == dir + ("/" + n);
    assert Join(dir, n)[|from|..] == dir[|from|..] + ("/" + n);
    assert to + Join(dir, n)[|from|..] == to + dir[|from|..] + ("/" + n);
  }

  lemma MovedPath(m: seq<Entry>, live: set<nat>, path: map<nat, string>, id: nat, below: set<nat>, to: string, i: nat)
    requires PathsOk(m, live, path) && Subtree(m, live, id, below) && i in below && |to| > 1
    ensures
      var path' := Moved(path, below + {id}, path[id], to);
      i < |m| && m[i].father in path' && path'[i] == Join(path'[m[i].father], m[i].name)
  {
    assert PathOk(m, path, i);
    var f := m[i].father;
    PathLength(m, live, path, f);
    PathLength(m, live, path, id);
    assert path[id] <= path[f] by {
      if f != id { Beneath(m, live, path, id, below, f); }
    }
    Rebased(path[f], m[i].name, path[id], to);
  }

  lemma MovedPathOk(m: seq<Entry>, m': seq<Entry>, live: set<nat>, path: map<nat, string>, id: nat, below: set<nat>,
                    to: string, i: nat)
    requires PathsOk(m, live, path) && Subtree(m, live, id, below) && id < |m|
    requires SameNames(m, m', live - {id}) && ValidName(m'[id].name)
    requires m'[id].father in live - below - {id}
    requires to == Join(path[m'[id].father], m'[id].name) && i in live && i != ROOT
    ensures PathOk(m', Moved(path, below + {id}, path[id], to), i)
  {
    assert PathOk(m, path, i);
    if i in below {
      JoinShape(path[m'[id].father], m'[id].name);
      MovedPath(m, live, path, id, below, to, i);
    } else if i == id {
      assert path[id][|path[id]|..] == "";
    }
  }

  /** An entry has been given another father and name: all paths below it change with it. */
  lemma PathsMoved(m: seq<Entry>, m': seq<Entry>, live: set<nat>, path: map<nat, string>, id: nat, below: set<nat>)
    requires PathsOk(m, live, path) && Subtree(m, live, id, below) && id < |m|
    requires SameNames(m, m', live - {id}) && ValidName(m'[id].name)
    requires m'[id].father in live - below - {id}
    requires Join(path[m'[id].father], m'[id].name) !in path.Values
    ensures PathsOk(m', live, Moved(path, below + {id}, path[id], Join(path[m'[id].father], m'[id].name)))
  {
    var to := Join(path[m'[id].father], m'[id].name);
    forall i | i in live && i != ROOT
      ensures PathOk(m', Moved(path, below + {id}, path[id], to), i)
    {
      MovedPathOk(m, m', live, path, id, below, to, i);
    }
    forall i, j | i in live && j in live && i != ROOT && j != ROOT && i != j
      ensures !SameName(m', i, j)
    {
      StillApart(m, m', live, path, id, i, j);
    }
  }

  lemma StillApart(m: seq<Entry>, m': seq<Entry>, live: set<nat>, path: map<nat, string>, id: nat, i: nat, j: nat)
    requires PathsOk(m, live, path) && id < |m| && id in live && SameNames(m, m', live - {id})
    requires m'[id].father in live && Join(path[m'[id].father], m'[id].name) !in path.Values
    requires i in live && j in live && i != ROOT && j != ROOT && i != j
    ensures !SameName(m', i, j)
  {
    assert PathOk(m, path, i) && PathOk(m, path, j) && !SameName(m, i, j);
    assert path[i] in path.Values && path[j] in path.Values;
  }

  // ---------------------------------------------------------------- from an entry up to the root

  /** One step up from an entry that has a father. */
  lemma ClimbStep(m: seq<Entry>, dirs: Forest, path: map<nat, string>, id: nat, current: nat, names: seq<string>)
    requires Rooted(m, dirs) && PathsOk(m, All(dirs), path) && id in All(dirs) && current in All(dirs)
    requires current < |m| && m[current].father != 0
    requires Prefix(path[id]) == Prefix(path[current]) + Spelt(names)
    ensures ValidName(m[current].name) && m[current].father in All(dirs) && current != ROOT
    ensures Prefix(path[id]) == Prefix(path[m[current].father]) + Spelt(names + [m[current].name])
    ensures Levels(path[current]) == Levels(path[m[current].father]) + 1
    ensures |path[m[current].father]| < |path[current]|
  {
    var _, _ := Find(m, dirs, current);
    PathLength(m, All(dirs), path, current);
    assert PathOk(m, path, current);
    JoinLevels(path[m[current].father], m[current].name);
    Climbed(path[id], path[m[current].father], m[current].name, names);
  }

  /** What the names read on the way up to the root spell. */
  lemma Climbing(m: seq<Entry>, dirs: Forest, path: map<nat, string>, id: nat, current: nat, names: seq<string>)
    requires Rooted(m, dirs) && PathsOk(m, All(dirs), path) && id in All(dirs) && current in All(dirs)
    requires current < |m| && m[current].father == 0
    requires Prefix(path[id]) == Prefix(path[current]) + Spelt(names)
    ensures path[id] != "" && current == ROOT && Levels(path[current]) == 0
    ensures id == ROOT || path[id] == Spelt(names)
    ensures id == ROOT ==> names == []
  {
    var _, _ := Find(m, dirs, current);
    PathLength(m, All(dirs), path, id);
    assert Slashes("") == 0;
  }

  // ---------------------------------------------------------------- what the tree does not depend on

  /** New entries elsewhere in the arena do not matter. */
  lemma TreeFrame(m: seq<Entry>, m': seq<Entry>, hash: seq<nat>, hash': seq<nat>, dirs: Forest, path: map<nat, string>,
                  stale: set<nat>)
    requires WellNamed(m, hash, dirs, path, stale)
    requires |m| <= |m'| && forall i :: i in All(dirs) && i < |m| ==> m'[i] == m[i]
    requires forall i :: i in All(dirs) && i < |hash| ==> i < |hash'| && hash'[i] == hash[i]
    ensures WellNamed(m', hash', dirs, path, stale)
  {
    RootedFrame(m, m', dirs);
    PathsFrame(m, m', All(dirs), path);
  }

  /** A name no child of a directory has gives a path no entry has. */
  lemma FreshPath(m: seq<Entry>, live: set<nat>, path: map<nat, string>, father: nat, n: string)
    requires PathsOk(m, live, path) && father in live && ValidName(n)
    requires forall i :: i in live && i != ROOT && i < |m| && m[i].father == father ==> m[i].name != n
    ensures Join(path[father], n) !in path.Values
  {
    forall i | i in live
      ensures path[i] != Join(path[father], n)
    {
      PathLength(m, live, path, i);
      PathLength(m, live, path, father);
      JoinShape(path[father], n);
      if i != ROOT && path[i] == Join(path[father], n) {
        assert PathOk(m, path, i);
        PathLength(m, live, path, m[i].father);
        JoinInjective(path[father], n, path[m[i].father], m[i].name);
        PathInjective(m, live, path, father, m[i].father);
      }
    }
  }

  lemma NoChildren(m: seq<Entry>, dirs: Forest, father: nat)
    requires Rooted(m, dirs) && father in All(dirs) && father < |m| && !m[father].child.First?
    ensures forall i :: i in All(dirs) ==> i < |m| && m[i].father != father
  {
    var c, f := Find(m, dirs, father);
    AtDown(m, c, f);
    forall i | i in All(dirs)
      ensures i < |m| && m[i].father != father
    {
      ChildrenExact(m, c, f, i);
    }
  }

  /** A directory without children is marked as empty. */
  lemma Emptied(m: seq<Entry>, m': seq<Entry>, hash: seq<nat>, dirs: Forest, path: map<nat, string>, stale: set<nat>, id: nat)
    requires WellNamed(m, hash, dirs, path, stale) && id < |m| && m[id].kind.Directory? && !m[id].child.First?
    requires m' == m[id := m[id].(child := Empty)]
    ensures WellNamed(m', hash, dirs, path, stale)
  {
    ListsRelabelled(m, m', dirs, ROOT, 0, id);
    PathsFrame(m, m', All(dirs), path);
  }

  // ---------------------------------------------------------------- reading a directory

  /** What the source directory holds. */
  datatype Item = Item(name: string, kind: Kind)

  /** Names of a directory are valid and differ. */
  ghost predicate Readable(listing: seq<Item>) {
    && (forall k :: 0 <= k < |listing| ==> ValidName(listing[k].name))
    && (forall j, k :: 0 <= j < k < |listing| ==> listing[j].name != listing[k].name)
  }

  /** Names that are not taken over; the last one only in the root directory. */
  predicate Skipped(name: string, atRoot: bool) {
    name == "." || name == ".." || (atRoot && name == ".mcachefs")
  }

  /** The items of a listing that are taken over, in their order. */
  ghost function Kept(listing: seq<Item>, atRoot: bool): seq<Item> {
    if listing == [] then [] else
      var last := listing[|listing| - 1];
      Kept(listing[..|listing| - 1], atRoot) + if Skipped(last.name, atRoot) then [] else [last]
  }

  lemma {:induction false} KeptListed(listing: seq<Item>, atRoot: bool, e: Item)
    ensures e in Kept(listing, atRoot) <==> e in listing && !Skipped(e.name, atRoot)
  {
    if listing != [] {
      KeptListed(listing[..|listing| - 1], atRoot, e);
      assert listing == listing[..|listing| - 1] + [listing[|listing| - 1]];
    }
  }

  lemma KeptNext(listing: seq<Item>, k: nat, atRoot: bool)
    requires k < |listing|
    ensures Kept(listing[..k + 1], atRoot) ==
      Kept(listing[..k], atRoot) + if Skipped(listing[k].name, atRoot) then [] else [listing[k]]
  {
    assert listing[..k + 1][..k] == listing[..k];
  }

  /** A directory whose children are still to be read. */
  predicate Unread(m: seq<Entry>, id: nat) {
    id < |m| && m[id].kind.Directory? && m[id].child.NotFetched?
  }

  /** `i` is a child of `father` as listed, not looked into yet. */
  ghost predicate Spells(m: seq<Entry>, i: nat, father: nat, e: Item) {
    i < |m| && m[i].father == father && m[i].name == e.name && m[i].kind == e.kind && m[i].child.NotFetched?
  }

  /** The entries `ids`, and no others, have joined `live0`, one for each of the `items` that
      `father` holds. */
  ghost predicate Fetched(m0: seq<Entry>, live0: set<nat>, m: seq<Entry>, live: set<nat>, father: nat,
                          items: seq<Item>, ids: seq<nat>) {
    && father in live0 && father < |m0| && father < |m| && NoDup(ids) && |ids| == |items|
    && live == live0 + (set i | i in ids) && (forall k :: 0 <= k < |ids| ==> ids[k] !in live0)
    && (forall k :: 0 <= k < |ids| ==> Spells(m, ids[k], father, items[k]))
    && (forall i :: i in live0 && i != father && i < |m0| ==> i < |m| && m[i] == m0[i])
    && m[father] == m0[father].(child := m[father].child)
  }

  lemma FetchedFacts(m0: seq<Entry>, live0: set<nat>, m: seq<Entry>, live: set<nat>, father: nat, items: seq<Item>, ids: seq<nat>)
    requires Fetched(m0, live0, m, live, father, items, ids)
    ensures father < |m0| && father < |m| && m[father].kind == m0[father].kind
    ensures forall i :: i in live0 && i != father && i < |m0| ==> i < |m| && m[i] == m0[i]
  {
  }

  lemma FetchedEmpty(m0: seq<Entry>, live0: set<nat>, m: seq<Entry>, live: set<nat>, father: nat, items: seq<Item>, ids: seq<nat>)
    requires Fetched(m0, live0, m, live, father, items, ids)
    ensures father < |m| && Fetched(m0, live0, m[father := m[father].(child := Empty)], live, father, items, ids)
  {
    assert forall k :: 0 <= k < |ids| ==> ids[k] != father;
  }

  /** The next item of a listing gets a path no entry has. */
  lemma ListedFresh(m0: seq<Entry>, live0: set<nat>, m: seq<Entry>, live: set<nat>, path: map<nat, string>, father: nat,
                    listing: seq<Item>, k: nat, ids: seq<nat>)
    requires PathsOk(m, live, path) && Readable(listing) && k < |listing|
    requires Fetched(m0, live0, m, live, father, Kept(listing[..k], father == ROOT), ids)
    requires forall i :: i in live0 ==> i < |m0| && m0[i].father != father
    ensures Join(path[father], listing[k].name) !in path.Values
  {
    forall i | i in live && i != ROOT && i < |m| && m[i].father == father
      ensures m[i].name != listing[k].name
    {
      if i !in live0 {
        var j :| 0 <= j < |ids| && ids[j] == i;
        var e := Kept(listing[..k], father == ROOT)[j];
        KeptListed(listing[..k], father == ROOT, e);
        var l :| 0 <= l < k && listing[..k][l] == e;
        assert listing[l].name != listing[k].name;
      }
    }
    FreshPath(m, live, path, father, listing[k].name);
  }

  /** One more item has been added. */
  lemma FetchedMore(m0: seq<Entry>, live0: set<nat>, m: seq<Entry>, m1: seq<Entry>, m': seq<Entry>, live: set<nat>,
                    father: nat, items: seq<Item>, e: Item, ids: seq<nat>, id: nat)
    requires Fetched(m0, live0, m, live, father, items, ids)
    requires forall i :: i in live ==> i < |m| && i < |m1| && m1[i] == m[i]
    requires id !in live && id < |m1| == |m'| && m1[id].child.NotFetched?
    requires m1[id].name == e.name && m1[id].kind == e.kind && father < |m1|
    requires forall i :: 0 <= i < |m1| && i != id && i != father ==> m'[i] == m1[i]
    requires m'[father] == m1[father].(child := First(id))
    requires m'[id] == m1[id].(father := father, next := m'[id].next)
    ensures Fetched(m0, live0, m', live + {id}, father, items + [e], ids + [id])
  {
    forall k | 0 <= k < |ids|
      ensures ids[k] in live && Spells(m', ids[k], father, items[k])
    {
      assert ids[k] in ids;
    }
  }

  predicate Unlinkable(kind: Kind) {
    kind.Regular? || kind.Symlink?
  }

  // ---------------------------------------------------------------- what a rename means

  /** The paths after `q`, with all that is below it, was renamed to `to`. */
  ghost function Renamed(path: map<nat, string>, q: string, to: string): map<nat, string> {
    map i | i in path ::
      if path[i] == q then to else if IsBelow(q, path[i]) then to + path[i][|q|..] else path[i]
  }

  /** Only what lies below an entry has a path that begins with the entry's path and a slash. */
  lemma {:induction false} BeneathOnly(m: seq<Entry>, live: set<nat>, path: map<nat, string>, id: nat, below: set<nat>, i: nat)
    requires PathsOk(m, live, path) && Subtree(m, live, id, below) && i in live && IsBelow(path[id], path[i])
    ensures i in below
    decreases |path[i]|
  {
    PathLength(m, live, path, i);
    PathLength(m, live, path, id);
    assert |path[id] + "/"| > 1 && i != ROOT;
    assert PathOk(m, path, i);
    var f := m[i].father;
    PathLength(m, live, path, f);
    BelowJoin(path[id], path[f], m[i].name);
    if path[id] == path[f] {
      PathInjective(m, live, path, f, id);
    } else {
      BeneathOnly(m, live, path, id, below, f);
    }
  }

  /** What some path lies below is itself the path of an entry. */
  lemma {:induction false} AncestorThere(m: seq<Entry>, live: set<nat>, path: map<nat, string>, q: string, i: nat)
    requires PathsOk(m, live, path) && i in live && IsBelow(q, path[i]) && q != ""
    ensures q in path.Values
    decreases |path[i]|
  {
    PathLength(m, live, path, i);
    assert |q + "/"| > 1;
    if i != ROOT {
      assert PathOk(m, path, i);
      var f := m[i].father;
      PathLength(m, live, path, f);
      BelowJoin(q, path[f], m[i].name);
      if q == Prefix(path[f]) {
        assert path[f] in path.Values;
      } else {
        AncestorThere(m, live, path, q, f);
      }
    }
  }

  lemma MovedIsRenamedAt(m: seq<Entry>, live: set<nat>, path: map<nat, string>, id: nat, below: set<nat>, i: nat)
    requires PathsOk(m, live, path) && Subtree(m, live, id, below) && i in live
    ensures i in below <==> IsBelow(path[id], path[i])
    ensures path[i] == path[id] <==> i == id
  {
    if i in below {
      Beneath(m, live, path, id, below, i);
    } else if IsBelow(path[id], path[i]) {
      BeneathOnly(m, live, path, id, below, i);
    }
    if path[i] == path[id] { PathInjective(m, live, path, i, id); }
  }

  lemma SameMove(path: map<nat, string>, id: nat, below: set<nat>, to: string, i: nat)
    requires i in path && id in path && id !in below
    requires i in below <==> IsBelow(path[id], path[i])
    requires path[i] == path[id] <==> i == id
    ensures Moved(path, below + {id}, path[id], to)[i] == Renamed(path, path[id], to)[i]
  {
    if i == id {
      assert path[id][|path[id]|..] == "";
    }
  }

  /** Moving a subtree is renaming by the prefix of paths. */
  lemma MovedIsRenamed(m: seq<Entry>, live: set<nat>, path: map<nat, string>, id: nat, below: set<nat>, to: string)
    requires PathsOk(m, live, path) && Subtree(m, live, id, below)
    ensures Moved(path, below + {id}, path[id], to) == Renamed(path, path[id], to)
  {
    var path', path'' := Moved(path, below + {id}, path[id], to), Renamed(path, path[id], to);
    forall i | i in path
      ensures path'[i] == path''[i]
    {
      MovedIsRenamedAt(m, live, path, id, below, i);
      SameMove(path, id, below, to, i);
    }
  }

  lemma ChildList(m: seq<Entry>, dirs: Forest, id: nat) returns (c: Spot, f: Forest)
    requires Rooted(m, dirs) && id in All(dirs)
    ensures f.Cons? && f.id == id && At(m, c, f, id) && Fill(c, f) == dirs
    ensures forall i :: i in All(dirs) ==> i < |m| && (m[i].father == id <==> i in Siblings(f.kids))
  {
    c, f := Find(m, dirs, id);
    forall i | i in All(dirs)
      ensures i < |m| && (m[i].father == id <==> i in Siblings(f.kids))
    {
      ChildrenExact(m, c, f, i);
    }
  }
}
