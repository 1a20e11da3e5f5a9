/** What linking, unlinking and moving entries does to the directory tree and its paths. */
module StoreMoves {
  import opened DirForest
  import opened PathHash
  import opened PathNames
  import opened StoreState
  import opened SubtreeWalk

  /** `id` heads a tree of its own, with `below` below it. */
  ghost predicate Loose(m: seq<Entry>, id: nat, below: Forest) {
    && 0 < id < |m| && Lists(m, below, FirstId(m[id].child), id) && Disjoint(below) && id !in All(below)
    && (m[id].child.First? <==> below.Cons?)
  }

  /** What unlinking the entry at the spot writes: the link just before it. */
  ghost predicate UnlinkWrites(m: seq<Entry>, m': seq<Entry>, c: Spot, id: nat) {
    && !c.Whole? && 0 < c.id < |m| == |m'| && 0 < id < |m|
    && (forall i :: 0 <= i < |m| && i != c.id ==> m'[i] == m[i])
    && m'[c.id] == if c.InRest? then m[c.id].(next := m[id].next)
                   else m[c.id].(child := if m[id].next != 0 then First(m[id].next) else Empty)
  }

  /** What linking `id` below `father` writes. */
  ghost predicate LinkWrites(m: seq<Entry>, m': seq<Entry>, father: nat, id: nat) {
    && father != id && father < |m| == |m'| && id < |m|
    && (forall i :: 0 <= i < |m| && i != id && i != father ==> m'[i] == m[i])
    && m'[id] == m[id].(name := m'[id].name, father := father, next := FirstId(m[father].child))
    && m'[father] == m[father].(child := First(id))
  }

  /** An entry has been cut off with all that is below it. */
  lemma Cut(m: seq<Entry>, m': seq<Entry>, dirs: Forest, c: Spot, f: Forest) returns (dirs': Forest)
    requires f.Cons? && At(m, c, f, f.id) && Fill(c, f) == dirs && RootAt(c, f.id) == ROOT && Rooted(m, dirs)
    requires UnlinkWrites(m, m', c, f.id)
    ensures Rooted(m', dirs') && All(dirs') == All(dirs) - All(f.kids) - {f.id} && ROOT in All(dirs')
    ensures Loose(m', f.id, f.kids)
  {
    UnlinkedAt(m, m', c, f);
    AtDown(m, c, f);
    dirs' := Fill(c, f.rest);
    AtWhole(m', c, f.rest, m[f.id].next, ROOT);
    FillRoot(c, f, f.rest);
    FillIds(c, f);
    FillIds(c, f.rest);
  }

  /** A tree of its own has been hung at the head of the list of children of `f0`. */
  lemma HungAt(m: seq<Entry>, m': seq<Entry>, c0: Spot, f0: Forest, id: nat, below: Forest)
    requires f0.Cons? && At(m, c0, f0, f0.id) && Loose(m, id, below)
    requires (All(below) + {id}) !! (SpotIds(c0) + All(f0))
    requires LinkWrites(m, m', f0.id, id)
    ensures At(m', InKids(c0, f0.id, f0.rest), Cons(id, below, f0.kids), id)
    ensures RootAt(InKids(c0, f0.id, f0.rest), id) == RootAt(c0, f0.id)
  {
    AtDown(m, c0, f0);
    LinkedAt(m, m', c0, f0.id, f0.kids, f0.rest, id, below);
  }

  /** A tree of its own has been hung below a directory, as its first child. */
  lemma Hung(m: seq<Entry>, m': seq<Entry>, dirs: Forest, father: nat, id: nat, below: Forest)
    returns (dirs': Forest, c: Spot, f: Forest)
    requires Rooted(m, dirs) && father in All(dirs) && Loose(m, id, below) && (All(below) + {id}) !! All(dirs)
    requires LinkWrites(m, m', father, id)
    ensures Rooted(m', dirs') && All(dirs') == All(dirs) + All(below) + {id}
    ensures f.Cons? && f.id == id && f.kids == below && At(m', c, f, id) && Fill(c, f) == dirs' && RootAt(c, id) == ROOT
  {
    var c0, f0 := Find(m, dirs, father);
    FillIds(c0, f0);
    HungAt(m, m', c0, f0, id, below);
    c, f := InKids(c0, father, f0.rest), Cons(id, below, f0.kids);
    dirs' := Fill(c, f);
    AtWhole(m', c, f, id, ROOT);
    HungRoot(c0, f0, Cons(father, f, f0.rest));
    FillIds(c, f);
  }

  lemma HungRoot(c: Spot, f: Forest, f': Forest)
    requires f.Cons? && f'.Cons? && f'.rest == f.rest && Fill(c, f).Cons? && Fill(c, f).rest.Nil?
    ensures Fill(c, f').Cons? && Fill(c, f').rest.Nil?
  {
    if !c.Whole? {
      FillRoot(c, f, f');
    }
  }

  /** What is below an entry, as a set. */
  lemma SubtreeAt(m: seq<Entry>, dirs: Forest, c: Spot, f: Forest)
    requires f.Cons? && At(m, c, f, f.id) && Fill(c, f) == dirs && Rooted(m, dirs) && f.id != ROOT
    ensures Subtree(m, All(dirs), f.id, All(f.kids))
  {
    FillIds(c, f);
    FathersAt(m, c, f);
    NotWhole(m, c, f, dirs);
    RootAbove(c, f);
    ListsIds(m, f, f.id, FatherAt(c));
  }

  // ---------------------------------------------------------------- a new entry

  /** A new entry has been added to a directory. */
  lemma Attached(m: seq<Entry>, m0: seq<Entry>, m': seq<Entry>, dirs: Forest, path: map<nat, string>, father: nat, id: nat)
    returns (dirs': Forest)
    requires Rooted(m, dirs) && PathsOk(m, All(dirs), path) && KindsOk(m, All(dirs))
    requires father in All(dirs) && id !in All(dirs) && 0 < id < |m| == |m0| && m0 == m[id := m0[id]]
    requires LinkWrites(m0, m', father, id)
    requires m[father].kind.Directory? && !m0[id].child.First? && (m0[id].child.NotFetched? || m0[id].kind.Directory?)
    requires ValidName(m'[id].name) && Join(path[father], m'[id].name) !in path.Values
    ensures Rooted(m', dirs') && All(dirs') == All(dirs) + {id} && KindsOk(m', All(dirs'))
    ensures PathsOk(m', All(dirs'), path[id := Join(path[father], m'[id].name)])
  {
    RootedFrame(m, m0, dirs);
    var c, f;
    dirs', c, f := Hung(m0, m', dirs, father, id, Nil);
    PathsAdded(m, m', All(dirs), path, id);
  }

  /** The hash of a path is built from the hash of the directory, whose separator the root's
      path already holds. */
  lemma HashBuilt(m: seq<Entry>, dirs: Forest, path: map<nat, string>, father: nat, n: string)
    requires Rooted(m, dirs) && PathsOk(m, All(dirs), path) && father in All(dirs)
    ensures father < |m|
    ensures Hash(if m[father].father != 0 then Hash(DoHash(path[father]), "/") else DoHash(path[father]), n)
            == DoHash(Join(path[father], n))
  {
    var _, _ := Find(m, dirs, father);
    PathLength(m, All(dirs), path, father);
    var p := path[father];
    if father == ROOT {
      assert "/" + n == "" + "/" + n;
      HashConcat(SEED, "/", n);
    } else {
      HashConcat(SEED, p, "/");
      HashConcat(SEED, p + "/", n);
    }
  }

  lemma LinkFree(m: seq<Entry>, m': seq<Entry>, free: seq<nat>, first: nat, live: set<nat>, father: nat, id: nat)
    requires FreeChain(m, free, first) && LinkWrites(m, m', father, id) && Partition(|m|, live, free, {id}) && father in live
    ensures FreeChain(m', free, first)
  {
    FreeFrame(m, m', free, first);
  }

  /** A new entry has been added to a directory and given its hash. */
  lemma AttachedHashed(m: seq<Entry>, m0: seq<Entry>, m': seq<Entry>, hash: seq<nat>, hash': seq<nat>, dirs: Forest,
                       path: map<nat, string>, father: nat, id: nat)
    returns (dirs': Forest)
    requires WellNamed(m, hash, dirs, path, {}) && |hash| == |m|
    requires father in All(dirs) && id !in All(dirs) && 0 < id < |m| == |m0| && m0 == m[id := m0[id]] && father < |m|
    requires LinkWrites(m0, m', father, id)
    requires m[father].kind.Directory? && !m0[id].child.First? && (m0[id].child.NotFetched? || m0[id].kind.Directory?)
    requires ValidName(m'[id].name) && Join(path[father], m'[id].name) !in path.Values
    requires hash' == hash[id := Hash(if m[father].father != 0 then Hash(hash[father], "/") else hash[father], m'[id].name)]
    ensures WellNamed(m', hash', dirs', path[id := Join(path[father], m'[id].name)], {})
    ensures All(dirs') == All(dirs) + {id}
  {
    hide Rooted, PathOk, SameName, Hash, DoHash, Join;
    dirs' := Attached(m, m0, m', dirs, path, father, id);
    HashBuilt(m, dirs, path, father, m'[id].name);
  }

  /** All that is below an entry is live, and lies in live directories. */
  lemma BelowLive(m: seq<Entry>, hash: seq<nat>, dirs: Forest, path: map<nat, string>, stale: set<nat>, c: Spot, f: Forest)
    requires WellNamed(m, hash, dirs, path, stale)
    requires f.Cons? && DirForest.At(m, c, f, f.id) && Fill(c, f) == dirs
    ensures f.id in All(dirs) && All(f.kids) <= All(dirs) && f.id < |m|
    ensures forall i :: i in All(f.kids) ==> i < |m| && m[i].father in All(dirs) && (m[i].child.First? ==> m[i].kind.Directory?)
  {
    FillIds(c, f);
    AtDown(m, c, f);
    FathersAt(m, c, f);
  }

  lemma Reindexed(m: seq<Entry>, hash: seq<nat>, dirs: Forest, path: map<nat, string>, stale: set<nat>, child: nat)
    requires WellNamed(m, hash, dirs, path, stale) && |hash| == |m| && child in All(dirs) && child < |m|
    requires m[child].father in All(dirs) && m[child].father !in stale
    ensures child in path && WellNamed(m, hash[child := DoHash(path[child])], dirs, path, stale - {child})
    ensures child != ROOT && path[child] == Join(path[m[child].father], m[child].name)
    ensures hash[m[child].father] == DoHash(path[m[child].father])
  {
    hide DoHash, SameName, KindsOk;
    AtDown(m, Whole, dirs);
    ListsIds(m, dirs, ROOT, 0);
    assert PathOk(m, path, child);
  }

  // ---------------------------------------------------------------- an entry that goes

  /** An entry without children has been taken out of its directory. */
  lemma Detached(m: seq<Entry>, m': seq<Entry>, dirs: Forest, path: map<nat, string>, c: Spot, f: Forest)
    returns (dirs': Forest)
    requires f.Cons? && At(m, c, f, f.id) && Fill(c, f) == dirs && RootAt(c, f.id) == ROOT
    requires Rooted(m, dirs) && PathsOk(m, All(dirs), path) && KindsOk(m, All(dirs))
    requires UnlinkWrites(m, m', c, f.id) && f.kids.Nil? && f.id != ROOT
    ensures Rooted(m', dirs') && All(dirs') == All(dirs) - {f.id} && KindsOk(m', All(dirs'))
    ensures PathsOk(m', All(dirs'), path - {f.id})
  {
    hide At, Fill, PathsOk, Rooted, PathOk;
    dirs' := Cut(m, m', dirs, c, f);
    SubtreeAt(m, dirs, c, f);
    PathsDropped(m, m', All(dirs), path, {f.id});
    assert All(dirs) - {f.id} == All(dirs');
    UnlinkKinds(m, m', dirs, c, f);
  }

  /** An entry without children has been taken out of its directory and wiped. */
  lemma DetachedHashed(m: seq<Entry>, m': seq<Entry>, hash: seq<nat>, dirs: Forest, path: map<nat, string>,
                       c: Spot, f: Forest, first: nat)
    returns (dirs': Forest)
    requires f.Cons? && DirForest.At(m, c, f, f.id) && Fill(c, f) == dirs && RootAt(c, f.id) == ROOT
    requires WellNamed(m, hash, dirs, path, {}) && |hash| == |m| && f.id < |m|
    requires UnlinkWrites(m, m', c, f.id) && !m[f.id].child.First? && f.id != ROOT
    ensures WellNamed(m'[f.id := Blank(first)], hash[f.id := 0], dirs', path - {f.id}, {})
    ensures All(dirs') == All(dirs) - {f.id}
  {
    hide PathOk, SameName, DoHash;
    AtDown(m, c, f);
    dirs' := Detached(m, m', dirs, path, c, f);
    TreeFrame(m', m'[f.id := Blank(first)], hash, hash[f.id := 0], dirs', path - {f.id}, {});
  }

  /** Only a directory has a child link to rewrite. */
  lemma UnlinkKinds(m: seq<Entry>, m': seq<Entry>, dirs: Forest, c: Spot, f: Forest)
    requires f.Cons? && At(m, c, f, f.id) && Fill(c, f) == dirs && KindsOk(m, All(dirs)) && UnlinkWrites(m, m', c, f.id)
    ensures KindsOk(m', All(dirs))
  {
    FillIds(c, f);
  }

  // ---------------------------------------------------------------- an entry that moves

  /** An entry has been moved, with all that is below it, to another directory: the tree. */
  lemma TreeMoved(m: seq<Entry>, m1: seq<Entry>, m': seq<Entry>, dirs: Forest, c: Spot, f: Forest, father: nat)
    returns (dirs': Forest, c': Spot, f': Forest)
    requires f.Cons? && At(m, c, f, f.id) && Fill(c, f) == dirs && RootAt(c, f.id) == ROOT && Rooted(m, dirs)
    requires UnlinkWrites(m, m1, c, f.id) && LinkWrites(m1, m', father, f.id)
    requires father in All(dirs) - All(f.kids) - {f.id}
    ensures Rooted(m', dirs') && All(dirs') == All(dirs)
    ensures f'.Cons? && f'.id == f.id && f'.kids == f.kids && At(m', c', f', f.id) && Fill(c', f') == dirs'
  {
    var dirs1 := Cut(m, m1, dirs, c, f);
    FillIds(c, f);
    dirs', c', f' := Hung(m1, m', dirs1, father, f.id, f.kids);
    assert All(dirs') == All(dirs);
  }

  /** An entry has been moved, with all that is below it, to another directory: the paths. */
  lemma PathsRelocated(m: seq<Entry>, m1: seq<Entry>, m': seq<Entry>, dirs: Forest, path: map<nat, string>,
                       c: Spot, f: Forest, father: nat)
    requires f.Cons? && At(m, c, f, f.id) && Fill(c, f) == dirs && f.id != ROOT && f.id in All(dirs)
    requires Rooted(m, dirs) && PathsOk(m, All(dirs), path)
    requires UnlinkWrites(m, m1, c, f.id) && LinkWrites(m1, m', father, f.id)
    requires father in All(dirs) - All(f.kids) - {f.id}
    requires ValidName(m'[f.id].name) && Join(path[father], m'[f.id].name) !in path.Values
    ensures PathsOk(m', All(dirs), Moved(path, All(f.kids) + {f.id}, path[f.id], Join(path[father], m'[f.id].name)))
  {
    SubtreeAt(m, dirs, c, f);
    NamesRelocated(m, m1, m', All(dirs), c, f.id, father);
    PathsMoved(m, m', All(dirs), path, f.id, All(f.kids));
  }

  lemma NamesRelocated(m: seq<Entry>, m1: seq<Entry>, m': seq<Entry>, live: set<nat>, c: Spot, id: nat, father: nat)
    requires UnlinkWrites(m, m1, c, id) && LinkWrites(m1, m', father, id)
    ensures |m| == |m'| && SameNames(m, m', live - {id}) && m'[id].father == father
  {
  }

  lemma KindsRelocated(m: seq<Entry>, m1: seq<Entry>, m': seq<Entry>, dirs: Forest, c: Spot, f: Forest, father: nat)
    requires f.Cons? && At(m, c, f, f.id) && Fill(c, f) == dirs && KindsOk(m, All(dirs))
    requires UnlinkWrites(m, m1, c, f.id) && LinkWrites(m1, m', father, f.id) && m[father].kind.Directory?
    ensures KindsOk(m', All(dirs))
  {
    UnlinkKinds(m, m1, dirs, c, f);
  }

  /** A directory whose path does not begin with the entry's is not below the entry. */
  lemma NotBelow(m: seq<Entry>, dirs: Forest, path: map<nat, string>, hash: seq<nat>, c: Spot, f: Forest, i: nat)
    requires f.Cons? && DirForest.At(m, c, f, f.id) && Fill(c, f) == dirs && f.id != ROOT
    requires WellNamed(m, hash, dirs, path, {}) && i in All(dirs) && f.id in All(dirs) && !IsBelow(path[f.id], path[i])
    ensures i !in All(f.kids)
  {
    SubtreeAt(m, dirs, c, f);
    if i in All(f.kids) {
      Beneath(m, All(dirs), path, f.id, All(f.kids), i);
    }
  }

  ghost predicate SameKinds(m: seq<Entry>, m': seq<Entry>) {
    |m| == |m'| && forall i :: 0 <= i < |m| ==> m'[i].kind == m[i].kind
  }

  /** The entries `s` have the names, kinds and directories they had, and, but for `dir`, are read or still
      to be read as they were. */
  ghost predicate StayPut(m: seq<Entry>, m': seq<Entry>, s: set<nat>, dir: nat) {
    forall i :: i in s ==>
      && i < |m| && i < |m'| && m'[i].name == m[i].name && m'[i].kind == m[i].kind && m'[i].father == m[i].father
      && (i != dir ==> (m'[i].child.NotFetched? <==> m[i].child.NotFetched?))
  }

  /** Taking an entry out of its directory leaves the others where they are. */
  lemma UnlinkStays(m: seq<Entry>, m': seq<Entry>, c: Spot, f: Forest, s: set<nat>)
    requires f.Cons? && At(m, c, f, f.id) && UnlinkWrites(m, m', c, f.id) && forall i :: i in s ==> i < |m|
    ensures StayPut(m, m', s, 0) && f.id < |m| == |m'|
    ensures c.id != f.id ==> m'[f.id] == m[f.id]
  {
  }

  lemma WipedStays(m: seq<Entry>, m': seq<Entry>, id: nat, e: Entry, s: set<nat>)
    requires StayPut(m, m', s, 0) && id < |m'|
    ensures StayPut(m, m'[id := e], s - {id}, 0)
  {
  }

  /** So does putting it into another one. */
  lemma MoveStays(m: seq<Entry>, m1: seq<Entry>, m': seq<Entry>, c: Spot, f: Forest, s: set<nat>, father: nat)
    requires f.Cons? && At(m, c, f, f.id) && UnlinkWrites(m, m1, c, f.id) && LinkWrites(m1, m', father, f.id)
    requires forall i :: i in s ==> i < |m|
    ensures StayPut(m, m', s - {f.id}, father) && f.id < |m| == |m'|
    ensures m'[f.id].father == father && m'[f.id].kind == m[f.id].kind && m'[f.id].child == m[f.id].child
  {
    UnlinkStays(m, m1, c, f, s);
  }

  lemma Moves(m: seq<Entry>, m1: seq<Entry>, m': seq<Entry>, c: Spot, id: nat, father: nat)
    requires UnlinkWrites(m, m1, c, id) && LinkWrites(m1, m', father, id)
    ensures SameKinds(m, m') && forall i :: Unread(m', i) ==> Unread(m, i)
  {
  }

  lemma UnlinkKeeps(m: seq<Entry>, m': seq<Entry>, c: Spot, id: nat, i: nat)
    requires UnlinkWrites(m, m', c, id) && i < |m|
    ensures i < |m'| && m'[i].father == m[i].father
  {
  }

  /** An entry has been moved and given its new hash; those of the entries below it are stale. */
  lemma RelocatedHashed(m: seq<Entry>, m1: seq<Entry>, m': seq<Entry>, hash: seq<nat>, hash': seq<nat>, dirs: Forest,
                        path: map<nat, string>, c: Spot, f: Forest, father: nat)
    returns (dirs': Forest, c': Spot, f': Forest)
    requires f.Cons? && DirForest.At(m, c, f, f.id) && Fill(c, f) == dirs && RootAt(c, f.id) == ROOT && f.id != ROOT
    requires WellNamed(m, hash, dirs, path, {}) && |hash| == |m| && f.id in All(dirs) && f.id < |m|
    requires UnlinkWrites(m, m1, c, f.id) && LinkWrites(m1, m', father, f.id)
    requires father in All(dirs) - All(f.kids) - {f.id} && father < |m| && m[father].kind.Directory?
    requires ValidName(m'[f.id].name) && Join(path[father], m'[f.id].name) !in path.Values
    requires hash' == hash[f.id := Hash(if m[father].father != 0 then Hash(hash[father], "/") else hash[father], m'[f.id].name)]
    ensures WellNamed(m', hash', dirs', Renamed(path, path[f.id], Join(path[father], m'[f.id].name)), All(f.kids))
    ensures f'.Cons? && f'.id == f.id && f'.kids == f.kids && DirForest.At(m', c', f', f.id) && Fill(c', f') == dirs'
    ensures All(dirs') == All(dirs)
  {
    hide PathOk, SameName, Hash, DoHash, Rooted, Join, Disjoint, UnlinkWrites;
    dirs', c', f' := TreeMoved(m, m1, m', dirs, c, f, father);
    PathsRelocated(m, m1, m', dirs, path, c, f, father);
    KindsRelocated(m, m1, m', dirs, c, f, father);
    HashBuilt(m, dirs, path, father, m'[f.id].name);
    SubtreeAt(m, dirs, c, f);
    HashesMoved(hash, hash', path, f.id, All(f.kids), Join(path[father], m'[f.id].name));
    MovedIsRenamed(m, All(dirs), path, f.id, All(f.kids), Join(path[father], m'[f.id].name));
  }

  lemma HashesMoved(hash: seq<nat>, hash': seq<nat>, path: map<nat, string>, id: nat, below: set<nat>, to: string)
    requires HashesOk(hash, path, {}) && id in path && id !in below && id < |hash| && hash' == hash[id := DoHash(to)]
    ensures HashesOk(hash', Moved(path, below + {id}, path[id], to), below)
  {
    assert path[id][|path[id]|..] == "";
    assert to + "" == to;
  }

  /** What lies in a directory at `q` or below `q` has a path below `q`. */
  lemma JoinBelow(q: string, dir: string, n: string)
    requires |q| > 1 && (dir == q || IsBelow(q, dir))
    ensures IsBelow(q, Join(dir, n))
  {
    assert Join(dir, n) == dir + ("/" + n);
    assert Join(dir, n)[..|q| + 1] == q + "/";
  }

  lemma Into(m: seq<Entry>, live: set<nat>, path: map<nat, string>, id: nat, father: nat, n: string)
    requires PathsOk(m, live, path) && id in live && id != ROOT && father in live
    ensures father == id || IsBelow(path[id], path[father]) ==> IsBelow(path[id], Join(path[father], n))
  {
    PathLength(m, live, path, id);
    if father == id || IsBelow(path[id], path[father]) {
      JoinBelow(path[id], path[father], n);
    }
  }

  /** All that a walk below an entry meets has a path below the entry's. */
  lemma MetBelow(m: seq<Entry>, hash: seq<nat>, dirs: Forest, path: map<nat, string>, stale: set<nat>, c: Spot, f: Forest)
    requires WellNamed(m, hash, dirs, path, stale)
    requires f.Cons? && DirForest.At(m, c, f, f.id) && Fill(c, f) == dirs && f.id != ROOT
    ensures f.id in path && forall i :: i in Preorder(f.kids) ==> i in path && IsBelow(path[f.id], path[i])
    ensures Todo(f.kids, Preorder(f.kids)) == {}
  {
    SubtreeAt(m, dirs, c, f);
    PreorderIds(f.kids);
    forall i | i in Preorder(f.kids)
      ensures i in path && IsBelow(path[f.id], path[i])
    {
      Beneath(m, All(dirs), path, f.id, All(f.kids), i);
    }
  }

  lemma NothingBelow(m: seq<Entry>, hash: seq<nat>, dirs: Forest, path: map<nat, string>, stale: set<nat>, c: Spot, f: Forest)
    requires WellNamed(m, hash, dirs, path, stale) && f.Cons? && DirForest.At(m, c, f, f.id) && Fill(c, f) == dirs
    requires f.id < |m| && (!m[f.id].kind.Directory? || m[f.id].child.Empty?)
    ensures All(f.kids) == {}
  {
    FillIds(c, f);
    AtDown(m, c, f);
  }

  // ---------------------------------------------------------------- all that is below goes

  lemma FlushedAt(m: seq<Entry>, m': seq<Entry>, c: Spot, f: Forest)
    requires f.Cons? && DirForest.At(m, c, f, f.id)
    requires |m| == |m'| && f.id < |m| && m'[f.id] == m[f.id].(child := NotFetched)
    requires forall i :: i in SpotIds(c) + All(f.rest) && i < |m| ==> m'[i] == m[i]
    ensures DirForest.At(m', c, Cons(f.id, Nil, f.rest), f.id)
  {
    SpotListsFrame(m, m', c, f.id);
    ListsFrame(m, m', f.rest, m[f.id].next, FatherAt(c));
  }

  /** All that was below a directory is gone, and the directory unread again. */
  lemma Flushed(m: seq<Entry>, m': seq<Entry>, dirs: Forest, c: Spot, f: Forest)
    returns (dirs': Forest)
    requires f.Cons? && DirForest.At(m, c, f, f.id) && Fill(c, f) == dirs && RootAt(c, f.id) == ROOT && Rooted(m, dirs)
    requires |m| == |m'| && f.id < |m| && m'[f.id] == m[f.id].(child := NotFetched)
    requires forall i :: 0 <= i < |m| && i !in All(f.kids) && i != f.id ==> m'[i] == m[i]
    ensures Rooted(m', dirs') && All(dirs') == All(dirs) - All(f.kids) && ROOT !in All(f.kids)
  {
    var f' := Cons(f.id, Nil, f.rest);
    dirs' := Fill(c, f');
    FillIds(c, f);
    FillIds(c, f');
    FlushedAt(m, m', c, f);
    AtWhole(m', c, f', f.id, ROOT);
    HungRoot(c, f, f');
  }

  lemma NamesDropped(m: seq<Entry>, m': seq<Entry>, live: set<nat>, path: map<nat, string>, c: Spot, f: Forest)
    requires f.Cons? && DirForest.At(m, c, f, f.id) && PathsOk(m, live, path) && live == All(Fill(c, f))
    requires ROOT !in All(f.kids) && |m| == |m'| && f.id < |m| && m'[f.id] == m[f.id].(child := NotFetched)
    requires forall i :: 0 <= i < |m| && i !in All(f.kids) && i != f.id ==> m'[i] == m[i]
    ensures PathsOk(m', live - All(f.kids), path - All(f.kids))
  {
    hide DirForest.At, PathsOk;
    FillIds(c, f);
    FathersAt(m, c, f);
    PathsDropped(m, m', live, path, All(f.kids));
  }

  lemma FlushedNamed(m: seq<Entry>, m': seq<Entry>, hash: seq<nat>, hash': seq<nat>, dirs: Forest, path: map<nat, string>,
                     c: Spot, f: Forest)
    returns (dirs': Forest)
    requires f.Cons? && DirForest.At(m, c, f, f.id) && Fill(c, f) == dirs && RootAt(c, f.id) == ROOT
    requires WellNamed(m, hash, dirs, path, {}) && |hash| == |hash'|
    requires |m| == |m'| && f.id < |m| && m'[f.id] == m[f.id].(child := NotFetched)
    requires forall i :: 0 <= i < |m| && i !in All(f.kids) && i != f.id ==> m'[i] == m[i]
    requires forall i :: 0 <= i < |hash| && i !in All(f.kids) ==> hash'[i] == hash[i]
    ensures WellNamed(m', hash', dirs', path - All(f.kids), {}) && All(dirs') == All(dirs) - All(f.kids)
  {
    hide DoHash, PathOk, SameName, Rooted, DirForest.At, PathsOk;
    dirs' := Flushed(m, m', dirs, c, f);
    NamesDropped(m, m', All(dirs), path, c, f);
  }

  /** Being below an entry, told by the paths. */
  ghost predicate StrictlyBelow(path: map<nat, string>, id: nat, i: nat)
    requires id in path && i in path
  {
    if id == ROOT then i != ROOT else IsBelow(path[id], path[i])
  }

  lemma BelowByPath(m: seq<Entry>, hash: seq<nat>, dirs: Forest, path: map<nat, string>, c: Spot, f: Forest)
    requires WellNamed(m, hash, dirs, path, {}) && f.Cons? && DirForest.At(m, c, f, f.id) && Fill(c, f) == dirs
    requires f.id in path
    ensures forall i :: i in path ==> (i in All(f.kids) <==> StrictlyBelow(path, f.id, i))
  {
    hide PathOk, SameName;
    NotWhole(m, c, f, dirs);
    if f.id != ROOT {
      SubtreeAt(m, dirs, c, f);
      forall i | i in path
        ensures i in All(f.kids) <==> StrictlyBelow(path, f.id, i)
      {
        MovedIsRenamedAt(m, All(dirs), path, f.id, All(f.kids), i);
      }
    }
  }
}
