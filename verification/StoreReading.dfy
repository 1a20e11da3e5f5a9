/** What reading directories of the source does to a store. */
module StoreReading {
  import opened DirForest
  import opened IndexTree
  import opened PathNames
  import opened Sequences
  import opened StoreState

  /** The directories of the source that can be opened, and what is in them. */
  type Disk = map<string, seq<Item>>

  ghost predicate Mounted(disk: Disk) {
    forall p :: p in disk ==> Readable(disk[p])
  }

  /** A store between two steps: entries, paths and index. */
  datatype Snapshot = Snapshot(entry: seq<Entry>, path: map<nat, string>, hash: seq<nat>, node: seq<Link>,
                               cnext: seq<nat>, cprev: seq<nat>, root: nat)

  /** All paths known before are still the same. */
  ghost predicate Extends(path: map<nat, string>, path': map<nat, string>) {
    forall i :: i in path ==> i in path' && path'[i] == path[i]
  }

  /** What reading the directory `i` gives. */
  ghost function Items(t: Snapshot, disk: Disk, i: nat): seq<Item> {
    if i in t.path && t.path[i] in disk then Kept(disk[t.path[i]], i == ROOT) else []
  }

  /** What the source holds in the directory `i`: all but the directory itself, the one above it, and the
      directory of the virtual files in the root. */
  ghost predicate HeldBy(t: Snapshot, disk: Disk, i: nat, e: Item) {
    && i in t.path && t.path[i] in disk && e in disk[t.path[i]]
    && e.name != "." && e.name != ".." && !(i == ROOT && e.name == ".mcachefs")
  }

  lemma ItemsHeld(t: Snapshot, disk: Disk, i: nat, e: Item)
    ensures e in Items(t, disk, i) <==> HeldBy(t, disk, i, e)
  {
    if i in t.path && t.path[i] in disk { KeptListed(disk[t.path[i]], i == ROOT, e); }
  }

  /** `i` is a directory still to be read, and it can be. */
  ghost predicate ToRead(t: Snapshot, disk: Disk, i: nat) {
    i in t.path && Unread(t.entry, i) && t.path[i] in disk
  }

  /** The directory `i` was read meanwhile. */
  ghost predicate WasRead(t: Snapshot, t': Snapshot, i: nat) {
    && i in t'.path && i < |t'.entry| && t'.entry[i].kind.Directory? && !t'.entry[i].child.NotFetched?
    && (i in t.path ==> Unread(t.entry, i))
  }

  /** An entry is as it was, but for its children if it is a directory that was read meanwhile. */
  ghost predicate KeptEntry(t: Snapshot, t': Snapshot, i: nat) {
    && i < |t.entry| && i < |t'.entry| && t'.entry[i] == t.entry[i].(child := t'.entry[i].child)
    && (t'.entry[i] != t.entry[i] ==> WasRead(t, t', i))
  }

  /** An entry that was not there is what its directory, read meanwhile, holds under its name. */
  ghost predicate FromDisk(t: Snapshot, t': Snapshot, disk: Disk, i: nat) {
    && i < |t'.entry| && WasRead(t, t', t'.entry[i].father)
    && HeldBy(t', disk, t'.entry[i].father, Item(t'.entry[i].name, t'.entry[i].kind))
  }

  /** All that the directory `i` holds is in the tree. */
  ghost predicate ReadWhole(t: Snapshot, disk: Disk, i: nat) {
    && i in t.path && t.path[i] in disk
    && forall e :: HeldBy(t, disk, i, e) ==> Join(t.path[i], e.name) in t.path.Values
  }

  /** Nothing happened but that directories were read, each as a whole. */
  ghost predicate Grew(t: Snapshot, t': Snapshot, disk: Disk) {
    && Extends(t.path, t'.path) && |t.entry| <= |t'.entry|
    && (forall i :: i in t.path ==> KeptEntry(t, t', i))
    && (forall i :: i in t'.path && i !in t.path ==> FromDisk(t, t', disk, i))
    && (forall i :: WasRead(t, t', i) ==> ReadWhole(t', disk, i))
    && ((forall i :: !WasRead(t, t', i)) ==> t' == t)
    && PathsOk(t'.entry, t'.path.Keys, t'.path)
  }

  /** Only directories above `q` were read. */
  ghost predicate OnlyAbove(t: Snapshot, t': Snapshot, q: string) {
    forall i :: WasRead(t, t', i) ==> Above(t'.path[i], q)
  }

  /** Of the entries there were, none but `father` is changed. */
  ghost predicate OthersStand(t: Snapshot, m: seq<Entry>, father: nat) {
    forall i :: i in t.path && i != father ==> i < |t.entry| && i < |m| && m[i] == t.entry[i]
  }

  /** A directory that may go if it is one, or a file or symbolic link, as `isDir` says. */
  ghost predicate MayGo(t: Snapshot, i: nat, isDir: bool) {
    && i < |t.entry|
    && if isDir then t.entry[i].kind.Directory? && t.entry[i].child.Empty?
       else t.entry[i].kind.Regular? || t.entry[i].kind.Symlink?
  }

  /** The directory `i` cannot go because something is in it, or because it cannot be read. */
  ghost predicate Occupied(t: Snapshot, i: nat, isDir: bool) {
    isDir && i < |t.entry| && t.entry[i].kind.Directory? && !t.entry[i].child.Empty?
  }

  lemma GrewNot(t: Snapshot, disk: Disk)
    requires PathsOk(t.entry, t.path.Keys, t.path)
    ensures Grew(t, t, disk) && (forall i :: !WasRead(t, t, i)) && forall q :: OnlyAbove(t, t, q)
  {
  }

  lemma KeptOn(t: Snapshot, t1: Snapshot, t2: Snapshot, disk: Disk, i: nat)
    requires Grew(t, t1, disk) && Grew(t1, t2, disk) && i in t.path
    ensures KeptEntry(t, t2, i)
    ensures i in t1.path && i < |t.entry| && i < |t1.entry| && (Unread(t1.entry, i) ==> Unread(t.entry, i))
  {
    assert KeptEntry(t, t1, i) && KeptEntry(t1, t2, i);
  }

  lemma ReadOn(t: Snapshot, t1: Snapshot, t2: Snapshot, disk: Disk, i: nat)
    requires Grew(t, t1, disk) && Grew(t1, t2, disk)
    ensures WasRead(t, t2, i) <==> WasRead(t, t1, i) || WasRead(t1, t2, i)
  {
    if i in t.path {
      KeptOn(t, t1, t2, disk, i);
      assert KeptEntry(t, t1, i) && KeptEntry(t1, t2, i);
    } else if i in t1.path {
      assert KeptEntry(t1, t2, i);
    }
  }

  /** Reading goes on. */
  lemma GrewOn(t: Snapshot, t1: Snapshot, t2: Snapshot, disk: Disk)
    requires Grew(t, t1, disk) && Grew(t1, t2, disk)
    ensures Grew(t, t2, disk)
    ensures forall i :: WasRead(t, t2, i) <==> WasRead(t, t1, i) || WasRead(t1, t2, i)
  {
    forall i
      ensures WasRead(t, t2, i) <==> WasRead(t, t1, i) || WasRead(t1, t2, i)
      ensures WasRead(t, t2, i) ==> ReadWhole(t2, disk, i)
    {
      ReadOn(t, t1, t2, disk, i);
      if WasRead(t, t1, i) { CompleteOn(t1, t2, disk, i); }
    }
    forall i | i in t.path
      ensures KeptEntry(t, t2, i)
    {
      KeptOn(t, t1, t2, disk, i);
    }
    forall i | i in t2.path && i !in t.path
      ensures FromDisk(t, t2, disk, i)
    {
      if i in t1.path {
        assert FromDisk(t, t1, disk, i) && KeptEntry(t1, t2, i);
      } else {
        assert FromDisk(t1, t2, disk, i);
      }
    }
  }

  lemma OnlyAboveOn(t: Snapshot, t1: Snapshot, t2: Snapshot, disk: Disk, q: string)
    requires Grew(t, t1, disk) && Grew(t1, t2, disk) && OnlyAbove(t, t1, q) && OnlyAbove(t1, t2, q)
    ensures Grew(t, t2, disk) && OnlyAbove(t, t2, q)
  {
    GrewOn(t, t1, t2, disk);
    forall i | WasRead(t, t2, i)
      ensures Above(t2.path[i], q)
    {
      if WasRead(t, t1, i) { assert t2.path[i] == t1.path[i]; }
    }
  }

  lemma OneMoreAbove(t: Snapshot, t1: Snapshot, t2: Snapshot, disk: Disk, q: string, id: nat)
    requires Grew(t, t1, disk) && Grew(t1, t2, disk) && OnlyAbove(t, t1, q) && id in t1.path && Above(t1.path[id], q)
    requires forall i :: WasRead(t1, t2, i) ==> i == id
    ensures Grew(t, t2, disk) && OnlyAbove(t, t2, q) && Extends(t1.path, t2.path)
  {
    assert OnlyAbove(t1, t2, q);
    OnlyAboveOn(t, t1, t2, disk, q);
  }

  /** Directories above an entry were read, then the entry itself. */
  lemma AboveThenAt(t: Snapshot, t1: Snapshot, t2: Snapshot, disk: Disk, id: nat)
    requires Grew(t, t1, disk) && Grew(t1, t2, disk) && id in t1.path && OnlyAbove(t, t1, t1.path[id])
    requires forall i :: WasRead(t1, t2, i) ==> i == id
    ensures Grew(t, t2, disk) && Extends(t1.path, t2.path)
    ensures forall i :: WasRead(t, t2, i) ==> Above(t2.path[i], t2.path[id]) || i == id
  {
    GrewOn(t, t1, t2, disk);
    forall i | WasRead(t, t2, i)
      ensures Above(t2.path[i], t2.path[id]) || i == id
    {
      if WasRead(t, t1, i) { assert t2.path[i] == t1.path[i]; }
    }
  }

  /** What cannot be read, or has been, is so later on. */
  lemma NoMoreToRead(t: Snapshot, t': Snapshot, disk: Disk, i: nat)
    requires Grew(t, t', disk) && i in t.path && !ToRead(t, disk, i)
    ensures !ToRead(t', disk, i)
  {
    assert KeptEntry(t, t', i);
  }

  lemma GrewKeeps(t: Snapshot, t': Snapshot, disk: Disk, i: nat)
    requires Grew(t, t', disk) && i in t.path
    ensures KeptEntry(t, t', i) && Extends(t.path, t'.path)
  {
  }

  lemma KindKept(t: Snapshot, t': Snapshot, disk: Disk, i: nat)
    requires Grew(t, t', disk) && i in t.path
    ensures i in t'.path && t'.path[i] == t.path[i]
    ensures i < |t.entry| && i < |t'.entry| && t'.entry[i].kind == t.entry[i].kind
  {
    assert KeptEntry(t, t', i);
  }

  lemma CompleteOn(t: Snapshot, t': Snapshot, disk: Disk, i: nat)
    requires ReadWhole(t, disk, i) && Extends(t.path, t'.path)
    ensures ReadWhole(t', disk, i)
  {
    forall e | HeldBy(t', disk, i, e)
      ensures Join(t'.path[i], e.name) in t'.path.Values
    {
      assert HeldBy(t, disk, i, e);
      var j :| j in t.path && t.path[j] == Join(t.path[i], e.name);
      assert t'.path[j] == t.path[j];
    }
  }

  /** The entries a directory was found to hold. */
  lemma NewlyListed(m: seq<Entry>, live: set<nat>, m': seq<Entry>, live': set<nat>, father: nat, items: seq<Item>, ids: seq<nat>, i: nat)
    requires Fetched(m, live, m', live', father, items, ids) && i in live' && i !in live
    ensures i < |m'| && m'[i].father == father && m'[i].child.NotFetched? && Item(m'[i].name, m'[i].kind) in items
  {
    var k :| 0 <= k < |ids| && ids[k] == i;
    assert Spells(m', ids[k], father, items[k]);
    assert Item(m'[i].name, m'[i].kind) == items[k];
  }

  lemma AllListed(m: seq<Entry>, live: set<nat>, m': seq<Entry>, path: map<nat, string>, father: nat, items: seq<Item>, ids: seq<nat>)
    requires Fetched(m, live, m', path.Keys, father, items, ids) && PathsOk(m', path.Keys, path) && ROOT in live
    ensures father in path && forall e :: e in items ==> Join(path[father], e.name) in path.Values
  {
    forall e | e in items
      ensures father in path && Join(path[father], e.name) in path.Values
    {
      var k :| 0 <= k < |items| && items[k] == e;
      assert Spells(m', ids[k], father, items[k]) && ids[k] in ids;
      assert PathOk(m', path, ids[k]);
      assert path[ids[k]] in path.Values;
    }
  }

  /** One directory has been read. */
  lemma GrewByOne(t: Snapshot, t': Snapshot, disk: Disk, father: nat, ids: seq<nat>)
    requires Extends(t.path, t'.path) && |t.entry| <= |t'.entry| && ToRead(t, disk, father) && PathsOk(t'.entry, t'.path.Keys, t'.path)
    requires ROOT in t.path && forall i :: i in t.path ==> i < |t.entry|
    requires Fetched(t.entry, t.path.Keys, t'.entry, t'.path.Keys, father, Items(t, disk, father), ids)
    requires father < |t'.entry| && !t'.entry[father].child.NotFetched?
    ensures Grew(t, t', disk)
    ensures forall i :: WasRead(t, t', i) <==> i == father
    ensures forall i :: i in t'.path && i !in t.path ==> i < |t'.entry| && t'.entry[i].father == father && t'.entry[i].child.NotFetched?
  {
    hide PathsOk, Kept;
    var items := Items(t, disk, father);
    AllListed(t.entry, t.path.Keys, t'.entry, t'.path, father, items, ids);
    FetchedFacts(t.entry, t.path.Keys, t'.entry, t'.path.Keys, father, items, ids);
    forall i | i in t'.path && i !in t.path
      ensures i < |t'.entry| && t'.entry[i].father == father && t'.entry[i].child.NotFetched?
      ensures HeldBy(t', disk, father, Item(t'.entry[i].name, t'.entry[i].kind))
    {
      NewlyListed(t.entry, t.path.Keys, t'.entry, t'.path.Keys, father, items, ids, i);
      ItemsHeld(t, disk, father, Item(t'.entry[i].name, t'.entry[i].kind));
    }
    forall e | HeldBy(t', disk, father, e)
      ensures Join(t'.path[father], e.name) in t'.path.Values
    {
      ItemsHeld(t, disk, father, e);
    }
    FatherKept(t.entry, t.path.Keys, t'.entry, t'.path.Keys, father, items, ids);
    hide Fetched;
    assert WasRead(t, t', father);
  }

  /** What is at the path of a name in a directory just read is what the directory holds under that name. */
  lemma ReadUnder(t: Snapshot, t': Snapshot, disk: Disk, father: nat, e: Item, i: nat)
    requires Grew(t, t', disk) && father in t.path && t.path[father] in disk && Readable(disk[t.path[father]])
    requires forall j :: j in t.path ==> j < |t.entry| && t.entry[j].father != father
    requires e in disk[t.path[father]] && i in t'.path && t'.path[i] == Join(t.path[father], e.name) && ROOT in t.path
    ensures i < |t'.entry| && t'.entry[i].kind == e.kind && HeldBy(t', disk, father, e)
  {
    hide ReadWhole;
    GrewKeeps(t, t', disk, ROOT);
    GrewKeeps(t, t', disk, father);
    PathLength(t'.entry, t'.path.Keys, t'.path, father);
    PathLength(t'.entry, t'.path.Keys, t'.path, i);
    var k :| 0 <= k < |disk[t.path[father]]| && disk[t.path[father]][k] == e;
    JoinShape(t.path[father], e.name);
    assert PathOk(t'.entry, t'.path, i);
    var f := t'.entry[i].father;
    PathLength(t'.entry, t'.path.Keys, t'.path, f);
    JoinInjective(t.path[father], e.name, t'.path[f], t'.entry[i].name);
    PathInjective(t'.entry, t'.path.Keys, t'.path, father, f);
    if i in t.path {
      GrewKeeps(t, t', disk, i);
    } else {
      assert FromDisk(t, t', disk, i);
      SameItem(disk[t.path[father]], Item(t'.entry[i].name, t'.entry[i].kind), e);
    }
  }

  lemma SameItem(listing: seq<Item>, e: Item, e': Item)
    requires Readable(listing) && e in listing && e' in listing && e.name == e'.name
    ensures e == e'
  {
    var j :| 0 <= j < |listing| && listing[j] == e;
    var k :| 0 <= k < |listing| && listing[k] == e';
  }

  /** Which names of a listing are in the store once the directory was read. */
  lemma NamesRead(t: Snapshot, t': Snapshot, disk: Disk, father: nat)
    requires Grew(t, t', disk) && father in t.path && t.path[father] in disk && Readable(disk[t.path[father]])
    requires forall j :: j in t.path ==> j < |t.entry| && t.entry[j].father != father
    requires WasRead(t, t', father) && ROOT in t.path
    ensures forall e :: e in disk[t.path[father]] ==>
              (Join(t.path[father], e.name) in t'.path.Values <==>
               e.name != "." && e.name != ".." && !(father == ROOT && e.name == ".mcachefs"))
    ensures forall e, i :: e in disk[t.path[father]] && i in t'.path && t'.path[i] == Join(t.path[father], e.name) ==>
              i < |t'.entry| && t'.entry[i].kind == e.kind
  {
    hide Readable, PathsOk, FromDisk;
    GrewKeeps(t, t', disk, father);
    assert ReadWhole(t', disk, father);
    hide Grew;
    forall e | e in disk[t.path[father]]
      ensures Join(t.path[father], e.name) in t'.path.Values <==>
              e.name != "." && e.name != ".." && !(father == ROOT && e.name == ".mcachefs")
    {
      if e.name != "." && e.name != ".." && !(father == ROOT && e.name == ".mcachefs") {
        assert HeldBy(t', disk, father, e);
      }
      if i :| i in t'.path && t'.path[i] == Join(t.path[father], e.name) { ReadUnder(t, t', disk, father, e, i); }
    }
    forall e, i | e in disk[t.path[father]] && i in t'.path && t'.path[i] == Join(t.path[father], e.name)
      ensures i < |t'.entry| && t'.entry[i].kind == e.kind
    {
      ReadUnder(t, t', disk, father, e, i);
    }
  }

  lemma FatherKept(m: seq<Entry>, live: set<nat>, m': seq<Entry>, live': set<nat>, father: nat, items: seq<Item>, ids: seq<nat>)
    requires Fetched(m, live, m', live', father, items, ids)
    ensures father < |m| && father < |m'| && m'[father] == m[father].(child := m'[father].child)
  {
  }

  // ---------------------------------------------------------------- what has been read on the way to a path

  /** No directory above `q` is left to read. */
  ghost predicate AllRead(t: Snapshot, disk: Disk, q: string) {
    forall i :: i in t.path && Above(t.path[i], q) ==> !ToRead(t, disk, i)
  }

  /** What is above an entry has been read. */
  lemma {:induction false} ReadAbove(m: seq<Entry>, dirs: Forest, path: map<nat, string>, i: nat, j: nat)
    requires Rooted(m, dirs) && PathsOk(m, All(dirs), path) && i in All(dirs) && j in All(dirs)
    requires Above(path[j], path[i])
    ensures j < |m| && m[j].child.First?
    decreases |path[i]|
  {
    PathLength(m, All(dirs), path, i);
    PathLength(m, All(dirs), path, j);
    assert |path[j] + "/"| > |"/"|;
    assert PathOk(m, path, i);
    var f := m[i].father;
    if f == j {
      if !m[j].child.First? { NoChildren(m, dirs, j); }
    } else {
      PathLength(m, All(dirs), path, f);
      if path[j] != "/" {
        BelowJoin(path[j], path[f], m[i].name);
        if path[j] == path[f] { PathInjective(m, All(dirs), path, j, f); }
      }
      ReadAbove(m, dirs, path, f, j);
    }
  }

  /** Before the root directory was read there is nothing else. */
  lemma LoneRoot(m: seq<Entry>, dirs: Forest, path: map<nat, string>)
    requires Rooted(m, dirs) && PathsOk(m, All(dirs), path) && Unread(m, ROOT)
    ensures path.Keys == {ROOT}
  {
    forall i | i in path
      ensures i == ROOT
    {
      PathLength(m, All(dirs), path, i);
      if i != ROOT { ReadAbove(m, dirs, path, i, ROOT); }
    }
  }

  /** No path that the query goes through after `size` is there. */
  ghost predicate NoneDeeper(path: map<nat, string>, q: string, size: nat) {
    forall k :: size < k < |q| && q[k] == '/' ==> q[..k] !in path.Values
  }

  lemma Deepest(path: map<nat, string>, q: string)
    ensures NoneDeeper(path, q, |q|)
  {
  }

  lemma LessDeep(path: map<nat, string>, q: string, size: nat)
    requires NoneDeeper(path, q, size) && 0 < size <= |q|
    requires size == |q| || q[size] != '/' || q[..size] !in path.Values
    ensures NoneDeeper(path, q, size - 1)
  {
  }

  /** All is read above a query that ends, as far as it is there, at `father`. */
  lemma AllReadAt(t: Snapshot, dirs: Forest, disk: Disk, q: string, size: nat, father: nat)
    requires Rooted(t.entry, dirs) && PathsOk(t.entry, All(dirs), t.path) && father in All(dirs)
    requires Absolute(q) && q != "/" && SplitsAt(q, size, t.path[father]) && NoneDeeper(t.path, q, size) && !ToRead(t, disk, father)
    ensures AllRead(t, disk, q)
  {
    forall i | i in t.path && Above(t.path[i], q)
      ensures !ToRead(t, disk, i)
    {
      PathLength(t.entry, All(dirs), t.path, i);
      PathLength(t.entry, All(dirs), t.path, father);
      AboveSplit(q, size, t.path[father], t.path[i]);
      assert t.path[i] in t.path.Values;
      if t.path[i] == t.path[father] {
        PathInjective(t.entry, All(dirs), t.path, i, father);
      } else {
        ReadAbove(t.entry, dirs, t.path, father, i);
      }
    }
  }

  /** The same if the query is there. */
  lemma AllReadThere(t: Snapshot, dirs: Forest, disk: Disk, id: nat)
    requires Rooted(t.entry, dirs) && PathsOk(t.entry, All(dirs), t.path) && id in All(dirs)
    ensures AllRead(t, disk, t.path[id])
  {
    forall i | i in t.path && Above(t.path[i], t.path[id])
      ensures !ToRead(t, disk, i)
    {
      ReadAbove(t.entry, dirs, t.path, id, i);
    }
  }

  /** If a part of the query is not there nothing deeper is. */
  lemma NothingDeeper(m: seq<Entry>, live: set<nat>, path: map<nat, string>, q: string, size: nat, end: nat)
    requires PathsOk(m, live, path) && 0 < end <= |q| && (end == |q| || q[end] == '/') && q[..end] !in path.Values
    requires size < end && '/' !in q[size + 1..end]
    ensures NoneDeeper(path, q, size) && q !in path.Values
  {
    hide PathsOk, IsBelow;
    assert q[..|q|] == q;
    forall k | end < k <= |q|
      ensures q[..k] !in path.Values
    {
      DeeperAbsent(m, live, path, q, end, k);
    }
    forall k | size < k < end
      ensures q[k] != '/'
    {
      assert q[k] == q[size + 1..end][k - size - 1];
    }
  }

  lemma DeeperAbsent(m: seq<Entry>, live: set<nat>, path: map<nat, string>, q: string, end: nat, k: nat)
    requires PathsOk(m, live, path) && 0 < end < k <= |q| && q[end] == '/' && q[..end] !in path.Values
    ensures q[..k] !in path.Values
  {
    hide PathsOk;
    assert q[..k][..end] == q[..end] && q[..k][end] == '/';
    assert IsBelow(q[..end], q[..k]);
    LiveKeys(m, live, path);
    if i :| i in path && path[i] == q[..k] {
      AncestorThere(m, live, path, q[..end], i);
    }
  }

  /** A directory above that of `q` is above `q`. */
  lemma OnlyAboveJoin(t: Snapshot, t': Snapshot, q: string, d: string, n: string)
    requires IsJoin(q, d, n) && OnlyAbove(t, t', d)
    ensures OnlyAbove(t, t', q) && Above(d, q)
  {
    JoinShape(d, n);
    assert q == Prefix(d) + "/" + n;
  }

  /** If nothing is read that was there to be read, nothing is. */
  lemma {:induction false} NotRead(t: Snapshot, t': Snapshot, disk: Disk, i: nat)
    requires Grew(t, t', disk) && ROOT in t.path && forall j :: ToRead(t, disk, j) ==> !WasRead(t, t', j)
    ensures !WasRead(t, t', i)
    decreases if i in t'.path then |t'.path[i]| else 0
  {
    hide PathsOk, ReadWhole, Items;
    if WasRead(t, t', i) {
      if i in t.path {
        KnownBefore(t, t', disk, i);
      } else {
        assert FromDisk(t, t', disk, i);
        PathLength(t'.entry, t'.path.Keys, t'.path, i);
        NotRead(t, t', disk, t'.entry[i].father);
      }
    }
  }

  lemma NothingRead(t: Snapshot, t': Snapshot, disk: Disk)
    requires Grew(t, t', disk) && ROOT in t.path && forall j :: ToRead(t, disk, j) ==> !WasRead(t, t', j)
    ensures t' == t
  {
    forall i
      ensures !WasRead(t, t', i)
    {
      NotRead(t, t', disk, i);
    }
  }

  lemma LiveKeys(m: seq<Entry>, live: set<nat>, path: map<nat, string>)
    requires PathsOk(m, live, path)
    ensures path.Keys == live
  {
  }

  lemma KnownBefore(t: Snapshot, t': Snapshot, disk: Disk, i: nat)
    requires Grew(t, t', disk) && WasRead(t, t', i) && i in t.path
    ensures ToRead(t, disk, i)
  {
    assert ReadWhole(t', disk, i);
  }

  /** With all read above a path, looking it up again reads nothing. */
  lemma NothingReadAgain(t: Snapshot, t': Snapshot, disk: Disk, q: string)
    requires Grew(t, t', disk) && OnlyAbove(t, t', q) && AllRead(t, disk, q) && ROOT in t.path
    ensures t' == t
  {
    assert Extends(t.path, t'.path);
    NothingRead(t, t', disk);
  }

  /** Only the root directory is above a name in it. */
  lemma AboveTopLevel(p: string, q: string)
    requires TopLevel(q) && p != ""
    ensures Above(p, q) ==> p == "/"
  {
    if |p| < |q| { assert q[1..][|p| - 1] == q[|p|]; }
  }
}
