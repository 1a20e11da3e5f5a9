/** Operations that mcachefs does not get through: which, in any store, and runs that come to one. */
module StoreFailures {
  import opened Chains
  import opened DirForest
  import opened HashIndex
  import opened IndexSearch
  import opened IndexTree
  import opened MetadataStore
  import opened FetchWalk
  import opened PathHash
  import opened PathNames
  import opened Sequences
  import opened StoreReading
  import opened StoreState

  // ---------------------------------------------------------------- an index of three entries

  lemma LowTree(t: Tree)
    requires RedBlack(t) && BlackHeight(t) == 0
    ensures |Inorder(t)| <= 1
  {
    if t.Node? {
      assert Inorder(t) == Inorder(t.left) + [t.id] + Inorder(t.right);
    }
  }

  /** A tree of three has one entry on each side of its root. */
  lemma ThreeNodes(t: Tree)
    requires RedBlackRoot(t) && |Inorder(t)| == 3
    ensures t.Node? && t.id == Inorder(t)[1]
  {
    assert t.Node? && Inorder(t) == Inorder(t.left) + [t.id] + Inorder(t.right);
    if Inorder(t.left) == [] {
      assert t.left.Leaf?;
      LowTree(t.right);
    } else if Inorder(t.right) == [] {
      assert t.right.Leaf?;
      LowTree(t.left);
    }
  }

  /** Of three entries with different hashes the middle one is the index root, and cannot be removed. */
  lemma MiddleRoot(index: Index, a: nat, b: nat, c: nat)
    requires index.Valid() && index.Indexed() == {a, b, c}
    requires a < |index.hash| && b < |index.hash| && c < |index.hash| && index.hash[a] < index.hash[b] < index.hash[c]
    ensures b < |index.cnext| && b < |index.cprev| && !index.Removable(b)
  {
    var s := Inorder(index.tree);
    ThreeInOrder(index, a, b, c);
    ThreeNodes(index.tree);
    Alone(index, {a, b, c}, b);
  }

  lemma ThreeInOrder(index: Index, a: nat, b: nat, c: nat)
    requires index.Valid() && index.Indexed() == {a, b, c}
    requires a < |index.hash| && b < |index.hash| && c < |index.hash| && index.hash[a] < index.hash[b] < index.hash[c]
    ensures Inorder(index.tree) == [a, b, c]
  {
    var s := Inorder(index.tree);
    NodesIndexed(index);
    InorderIds(index.tree);
    forall i | i in {a, b, c}
      ensures i in s
    {
      NodeHashed(index, i);
      var n :| n in Ids(index.tree) && n < |index.hash| && index.hash[n] == index.hash[i];
    }
    OfThree(index.hash, s, a, b, c);
  }

  lemma OfThree(hash: seq<nat>, s: seq<nat>, a: nat, b: nat, c: nat)
    requires InRange(hash, s) && Sorted(hash, s) && a in s && b in s && c in s && forall x :: x in s ==> x in {a, b, c}
    requires a < |hash| && b < |hash| && c < |hash| && hash[a] < hash[b] < hash[c]
    ensures s == [a, b, c]
  {
    var i :| 0 <= i < |s| && s[i] == a;
    var j :| 0 <= j < |s| && s[j] == b;
    var k :| 0 <= k < |s| && s[k] == c;
    assert i < j < k;
    assert s[0] in s && s[1] in s && s[2] in s;
    assert forall l :: 0 <= l < |s| ==> s[l] in s;
  }

  /** An entry whose hash no other entry has is no part of a chain. */
  lemma Alone(index: Index, s: set<nat>, b: nat)
    requires index.Valid() && index.Indexed() == s && b in s
    requires forall i, j :: i in s && j in s && i < |index.hash| && j < |index.hash| && index.hash[i] == index.hash[j] ==> i == j
    ensures b < |index.cnext| && b < |index.cprev| && index.cnext[b] == 0 == index.cprev[b]
  {
    var h := index.hash[b];
    var l := index.chains[h];
    forall k | 0 <= k < |l|
      ensures l[k] == b
    {
      ChainEntry(index.hash, index.cnext, index.cprev, h, l, k);
      assert l[k] in index.Indexed();
    }
    ChainEntry(index.hash, index.cnext, index.cprev, h, l, 0);
  }

  // ---------------------------------------------------------------- entries that cannot leave

  /** The index root heads its chain. */
  lemma RootHeads(index: Index)
    requires index.Valid()
    ensures index.root in index.Indexed() && index.root < |index.cprev| == |index.cnext| && index.cprev[index.root] == 0
  {
    NodesIndexed(index);
    var h := index.hash[index.root];
    ChainEntry(index.hash, index.cnext, index.cprev, h, index.chains[h], 0);
  }

  /** An entry that shares its hash with another one has a neighbour in its chain. */
  lemma Neighbour(index: Index, i: nat, j: nat)
    requires index.Valid() && i in index.Indexed() && j in index.Indexed() && i != j
    requires i < |index.hash| && j < |index.hash| && index.hash[i] == index.hash[j]
    ensures i < |index.cnext| && i < |index.cprev| && (index.cnext[i] != 0 || index.cprev[i] != 0)
  {
    var h := index.hash[i];
    var l := index.chains[h];
    var k :| 0 <= k < |l| && l[k] == i;
    var k' :| 0 <= k' < |l| && l[k'] == j;
    ChainEntry(index.hash, index.cnext, index.cprev, h, l, k);
    if k > 0 { ChainEntry(index.hash, index.cnext, index.cprev, h, l, k - 1); }
  }

  lemma SameEntries(s: Store)
    requires s.Valid()
    ensures s.path.Keys == s.Live() == s.index.Indexed()
    ensures |s.index.hash| == |s.entry| && forall i :: i in s.path ==> i < |s.entry| && s.index.hash[i] == DoHash(s.path[i])
  {
  }

  /** In any store the index root cannot leave the index if no other entry has its hash. */
  lemma RootStays(s: Store)
    requires s.Valid() && s.index.root < |s.index.cnext| && s.index.cnext[s.index.root] == 0
    ensures s.index.root in s.path && !CanLeave(s.Now(), s.index.root)
  {
    hide FreeChain, WellNamed, Index.Valid, Index.Indexed;
    SameEntries(s);
    RootHeads(s.index);
  }

  /** In any store an entry that shares its hash with another one cannot be moved to a hash that no
      entry has. */
  lemma SharedStays(s: Store, i: nat, j: nat, h: nat)
    requires s.Valid() && i in s.path && j in s.path && i != j && DoHash(s.path[i]) == DoHash(s.path[j])
    requires forall k :: k in s.path ==> DoHash(s.path[k]) != h
    ensures !CanMove(s.Now(), i, h)
  {
    hide FreeChain, WellNamed, Index.Valid, Index.Indexed, DoHash;
    SameEntries(s);
    Neighbour(s.index, i, j);
  }

  /** Nothing is read if all above the path was read, and what is there may go. */
  lemma NothingLeft(t: Snapshot, dirs: Forest, id: nat, isDir: bool, disk: Disk, t': Snapshot)
    requires Sound(t, dirs) && id in t.path && MayGo(t, id, isDir) && Grew(t, t', disk)
    requires forall i :: WasRead(t, t', i) ==> Above(t'.path[i], t.path[id]) || t'.path[i] == t.path[id]
    ensures t' == t
  {
    hide Grew, HashesOk, KindsOk;
    forall j | ToRead(t, disk, j)
      ensures !WasRead(t, t', j)
    {
      GrewKeeps(t, t', disk, j);
      if Above(t.path[j], t.path[id]) { ReadAbove(t.entry, dirs, t.path, id, j); }
      if t.path[j] == t.path[id] { PathInjective(t.entry, All(dirs), t.path, j, id); }
    }
    NothingRead(t, t', disk);
  }

  /** Removing the index root from any store where no other entry has its hash: mcachefs aborts, or goes
      on with an index that is not one of the others, if it does not abort in the lookup. */
  method RemoveHashRoot(s: Store, q: string, isDir: bool, disk: Disk) returns (r: Outcome)
    requires s.Valid() && Absolute(q) && q != "/" && Mounted(disk)
    requires s.index.root in s.path && s.path[s.index.root] == q && MayGo(s.Now(), s.index.root, isDir)
    requires s.index.root < |s.index.cnext| && s.index.cnext[s.index.root] == 0
    modifies s, s.index
    ensures if old(s.Trapped(q)) then r.Aborts? else Harms(r) && Damaged(s.Now(), old(s.path.Keys) - {old(s.index.root)})
  {
    hide Store.Valid, Grew, Store.Trapped, Troubled, AllRead, ToRead, WasRead;
    RootStays(s);
    s.IsSound();
    ghost var t0, dirs, root, id, t := s.Now(), s.dirs, s.index.root, 0, s.Now();
    OneThere(t0, dirs);
    r, id, t := s.RmdirUnlink(q, isDir, disk);
    NothingLeft(t0, dirs, root, isDir, disk, t);
  }

  lemma OneThere(t: Snapshot, dirs: Forest)
    requires Sound(t, dirs)
    ensures forall i, j :: i in t.path && j in t.path && t.path[i] == t.path[j] ==> i == j
  {
    forall i, j | i in t.path && j in t.path && t.path[i] == t.path[j]
      ensures i == j
    {
      PathInjective(t.entry, All(dirs), t.path, i, j);
    }
  }

  // ---------------------------------------------------------------- hashes of a few names

  lemma OneMore(p: string, c: char, q: string, h: nat, turns: nat, r: nat)
    requires q == p + [c] && DoHash(p) == h && (c as int) % 256 + 65599 * h == MODULUS * turns + r && r < MODULUS
    ensures DoHash(q) == r
  {
    hide Step;
    HashConcat(SEED, p, [c]);
    StepLinear(h, c);
    assert Hash(h, [c]) == Step(h, c);
  }

  lemma RootHash()
    ensures DoHash("/") == 38113066
  {
    hide Step;
    assert DoHash("") == SEED;
    OneMore("", '/', "/", 581, 0, 38113066);
  }

  lemma ShortHashes()
    ensures DoHash("/") == 38113066 && DoHash("/a") == 508050359 && DoHash("/b") == 508050360
    ensures DoHash("/" + "/a") == 2940970524 && DoHash("/" + "/b") == 2940970525
  {
    hide Hash, DoHash, Step;
    RootHash();
    OneMore("/", 'a', "/a", 38113066, 582, 508050359);
    OneMore("/", 'b', "/b", 38113066, 582, 508050360);
    OneMore("/", '/', "//", 38113066, 582, 508050309);
    OneMore("//", 'a', "//a", 508050309, 7759, 2940970524);
    OneMore("//", 'b', "//b", 508050309, 7759, 2940970525);
    assert "/" + "/a" == "//a" && "/" + "/b" == "//b";
  }

  lemma DeepHashes()
    ensures DoHash("/") == 38113066 && DoHash("/d") == 508050362 && DoHash("/d/e") == 3818982064 && DoHash("/d/e/f") == 1721089703
    ensures DoHash("/" + "/d") == 2940970527 && DoHash("/d/") == 2944447221 && DoHash("/d/e/") == 257007999
  {
    hide Hash, DoHash, Step;
    RootHash();
    OneMore("/", 'd', "/d", 38113066, 582, 508050362);
    OneMore("/d", '/', "/d/", 508050362, 7759, 2944447221);
    OneMore("/d/", 'e', "/d/e", 2944447221, 44971, 3818982064);
    OneMore("/d/e", '/', "/d/e/", 3818982064, 58329, 257007999);
    OneMore("/d/e/", 'f', "/d/e/f", 257007999, 3925, 1721089703);
    OneMore("/", '/', "//", 38113066, 582, 508050309);
    OneMore("//", 'd', "//d", 508050309, 7759, 2940970527);
    assert "/" + "/d" == "//d";
  }

  lemma ClashingHash()
    ensures DoHash("/a3sbbtt") == 508050359
  {
    hide Hash, DoHash, Step;
    RootHash();
    OneMore("/", 'a', "/a", 38113066, 582, 508050359);
    OneMore("/a", '3', "/a3", 508050359, 7759, 2944250428);
    OneMore("/a3", 's', "/a3s", 2944250428, 44968, 3794459959);
    OneMore("/a3s", 'b', "/a3sb", 3794459959, 57954, 2244178155);
    OneMore("/a3sb", 'b', "/a3sbb", 2244178155, 34276, 1543752247);
    OneMore("/a3sbb", 't', "/a3sbbt", 1543752247, 23578, 1864745981);
    OneMore("/a3sbbt", 't', "/a3sbbtt", 1864745981, 28481, 508050359);
  }

  lemma FirstHash()
    ensures DoHash("/ipigcnu") == 1511081851
  {
    hide Hash, DoHash, Step;
    RootHash();
    OneMore("/", 'i', "/i", 38113066, 582, 508050367);
    OneMore("/i", 'p', "/ip", 508050367, 7759, 2944775281);
    OneMore("/ip", 'i', "/ipi", 2944775281, 44976, 3864553528);
    OneMore("/ipi", 'g', "/ipig", 3864553528, 59025, 402236975);
    OneMore("/ipig", 'c', "/ipigc", 402236975, 6143, 2359223796);
    OneMore("/ipigc", 'n', "/ipigcn", 2359223796, 36033, 2165217146);
    OneMore("/ipigcn", 'u', "/ipigcnu", 2165217146, 33070, 1511081851);
  }

  lemma SecondHash()
    ensures DoHash("/mgbclui") == 1511081851
  {
    hide Hash, DoHash, Step;
    RootHash();
    OneMore("/", 'm', "/m", 38113066, 582, 508050371);
    OneMore("/m", 'g', "/mg", 508050371, 7759, 2945037668);
    OneMore("/mg", 'b', "/mgb", 2945037668, 44980, 3897009150);
    OneMore("/mgb", 'c', "/mgbc", 3897009150, 59520, 3449773029);
    OneMore("/mgbc", 'l', "/mgbcl", 3449773029, 52689, 4129070535);
    OneMore("/mgbcl", 'u', "/mgbclu", 4129070535, 63065, 785503342);
    OneMore("/mgbclu", 'i', "/mgbclui", 785503342, 11997, 1511081851);
  }

  lemma FirstSlashed()
    ensures DoHash("//ipigcnu") == 2084948576
  {
    hide Hash, DoHash, Step;
    RootHash();
    OneMore("/", '/', "//", 38113066, 582, 508050309);
    OneMore("//", 'i', "//i", 508050309, 7759, 2940970532);
    OneMore("//i", 'p', "//ip", 2940970532, 44918, 3384927052);
    OneMore("//ip", 'i', "//ipi", 3384927052, 51699, 2315448349);
    OneMore("//ipi", 'g', "//ipig", 2315448349, 35364, 3872790410);
    OneMore("//ipig", 'c', "//ipigc", 3872790410, 59150, 3862547289);
    OneMore("//ipigc", 'n', "//ipigcn", 3862547289, 58994, 1938950997);
    OneMore("//ipigcn", 'u', "//ipigcnu", 1938950997, 29614, 2084948576);
  }

  lemma SecondSlashed()
    ensures DoHash("//mgbclui") == 2084948576
  {
    hide Hash, DoHash, Step;
    RootHash();
    OneMore("/", '/', "//", 38113066, 582, 508050309);
    OneMore("//", 'm', "//m", 508050309, 7759, 2940970536);
    OneMore("//m", 'g', "//mg", 2940970536, 44918, 3385189439);
    OneMore("//mg", 'b', "//mgb", 3385189439, 51703, 2347903971);
    OneMore("//mgb", 'c', "//mgbc", 2347903971, 35860, 2625359168);
    OneMore("//mgbc", 'l', "//mgbcl", 2625359168, 40098, 1337426732);
    OneMore("//mgbcl", 'u', "//mgbclu", 1337426732, 20427, 559237193);
    OneMore("//mgbclu", 'i', "//mgbclui", 559237193, 8541, 2084948576);
  }

  // ---------------------------------------------------------------- directories below the root

  /** A source without any files. */
  const BARE: Disk := map["/" := []]

  /** No entry trips over the path: looking it up in the index does not abort. */
  lemma NotTrapped(s: Store, q: string)
    requires s.Valid() && forall i :: i in s.path && DoHash(s.path[i]) == DoHash(q) ==> !Trips(s.path, q, i)
    ensures !s.Trapped(q)
  {
    hide FreeChain, WellNamed, Index.Valid, Index.Indexed, DoHash, Trips;
    SameEntries(s);
    ChainListed(s.index, DoHash(q));
    ChainOf(s.index, DoHash(q));
  }

  lemma ChainOf(index: Index, h: nat)
    requires index.Valid()
    ensures forall i :: i in index.Chain(h) ==> i < |index.hash| && index.hash[i] == h
    ensures forall i :: i in index.Indexed() && i < |index.hash| && index.hash[i] == h ==> i in index.Chain(h)
  {
    forall k | 0 <= k < |index.Chain(h)|
      ensures index.Chain(h)[k] < |index.hash| && index.hash[index.Chain(h)[k]] == h
    {
      ChainEntry(index.hash, index.cnext, index.cprev, h, index.chains[h], k);
    }
  }

  /** The root directory has nothing to be read that would give an entry. */
  lemma NothingListed(t: Snapshot, t': Snapshot, q: string)
    requires Grew(t, t', BARE) && OnlyAbove(t, t', q) && TopLevel(q) && ROOT in t.path
    ensures PathsOk(t'.entry, t'.path.Keys, t'.path)
    ensures t'.path == t.path && ROOT < |t.entry| && ROOT < |t'.entry| && t'.entry[ROOT].kind == t.entry[ROOT].kind
    ensures forall i :: i in t.path && i != ROOT ==> i < |t.entry| && i < |t'.entry| && t'.entry[i] == t.entry[i]
  {
    hide PathsOk;
    GrewKeeps(t, t', BARE, ROOT);
    forall i | WasRead(t, t', i)
      ensures i == ROOT && forall e :: !HeldBy(t', BARE, i, e)
    {
      PathLength(t'.entry, t'.path.Keys, t'.path, i);
      AboveTopLevel(t'.path[i], q);
    }
    forall i
      ensures !FromDisk(t, t', BARE, i)
    {
    }
    forall i | i in t.path && i != ROOT
      ensures i < |t.entry| && i < |t'.entry| && t'.entry[i] == t.entry[i]
    {
      GrewKeeps(t, t', BARE, i);
    }
  }

  lemma InRoot(t: Snapshot, q: string, n: string)
    requires PathsOk(t.entry, t.path.Keys, t.path) && IsJoin(q, "/", n) && ROOT < |t.entry|
    ensures ROOT in t.path && t.path[ROOT] == "/" && TopLevel(q) && Absolute(q)
    ensures !FatherMissing(t.path, q) && (FatherNoDirectory(t.entry, t.path, q) <==> !t.entry[ROOT].kind.Directory?)
  {
    hide Join;
    TopLevelJoin(q, "/", n);
    JoinShape("/", n);
    forall d, n' | IsJoin(q, d, n')
      ensures d == "/"
    {
      JoinInjective("/", n, d, n');
    }
    forall i | i in t.path && t.path[i] == "/"
      ensures i == ROOT
    {
      PathInjective(t.entry, t.path.Keys, t.path, i, ROOT);
    }
    assert t.path[ROOT] in t.path.Values;
  }

  /** Makes a directory in the root directory, on a bare source. */
  method MakeDirectory(s: Store, n: string) returns (ghost id: nat)
    requires s.Valid() && ValidName(n) && ROOT < |s.entry| && s.entry[ROOT].kind.Directory?
    requires var q := Join("/", n); q !in s.path.Values && !s.Trapped(q) && !Misled(s.path, q)
    modifies s, s.index
    ensures s.Valid() && id !in old(s.path) && s.path == old(s.path)[id := Join("/", n)]
    ensures id < |s.entry| && s.entry[id].kind.Directory? && s.entry[id].child.Empty?
    ensures ROOT < |s.entry| && s.entry[ROOT].kind.Directory?
    ensures forall i :: i in old(s.path) && i != ROOT ==> i < |old(s.entry)| && i < |s.entry| && s.entry[i] == old(s.entry)[i]
  {
    hide Store.Valid, Misled, Troubled, FatherMissing, FatherNoDirectory, Grew, OnlyAbove, AllRead, ToRead, Sound,
         Store.Trapped, TopLevel, Absolute, PathsOk, Rooted, Join, Mounted, WasRead;
    var q := Join("/", n);
    assert IsJoin(q, "/", n);
    BareMounted();
    s.InArena();
    ghost var t0 := s.Now();
    InRoot(t0, q, n);
    var r;
    ghost var t;
    r, id, t := s.MakeEntry(q, Directory, BARE);
    NothingListed(t0, t, q);
    InRoot(t, q, n);
    s.InArena();
    BelowRoot(s.Now(), id, n);
  }

  lemma BareMounted()
    ensures Mounted(BARE)
  {
  }

  lemma BelowRoot(t: Snapshot, id: nat, n: string)
    requires PathsOk(t.entry, t.path.Keys, t.path) && id in t.path && t.path[id] == Join("/", n) && ValidName(n)
    ensures id < |t.entry| && t.entry[id].father == ROOT && ROOT < |t.entry|
  {
    PathLength(t.entry, t.path.Keys, t.path, id);
    JoinShape("/", n);
    assert PathOk(t.entry, t.path, id);
    var f := t.entry[id].father;
    PathLength(t.entry, t.path.Keys, t.path, f);
    JoinInjective("/", n, t.path[f], t.entry[id].name);
  }

  // ---------------------------------------------------------------- runs

  lemma FlatLevels(q: string)
    requires TopLevel(q)
    ensures Levels(q) == 1
  {
    NoSlashes(q[1..]);
  }

  /** An entry does not trip over its own path. */
  lemma OwnPath(path: map<nat, string>, q: string, i: nat)
    requires i in path && i != ROOT && path[i] == q && TopLevel(q)
    ensures !Trips(path, q, i)
  {
    FlatLevels(q);
  }

  /** Nor does it trip over a path that begins with another letter. */
  lemma OtherLetter(path: map<nat, string>, q: string, i: nat)
    requires i in path && i != ROOT && TopLevel(path[i]) && TopLevel(q) && path[i][1] != q[1]
    ensures !Trips(path, q, i)
  {
    FlatLevels(path[i]);
    var p := path[i];
    forall k: nat
      ensures !OverrunsAt(p[1..], q[1..], k)
    {
      if 0 < k <= |p[1..]| && k < |q[1..]| { assert p[1..][..k][0] == p[1] && q[1..][..k][0] == q[1]; }
    }
  }

  /** Of the root and two directories in it the middle one is the index root. */
  lemma Middle(s: Store, a: nat, b: nat)
    requires s.Valid() && s.path == map[ROOT := "/", a := "/a", b := "/b"] && a != ROOT && b != ROOT && a != b
    ensures !CanLeave(s.Now(), a) && !s.Trapped("/a")
  {
    hide Index.Valid, Index.Indexed, DoHash, Trips;
    ShortHashes();
    SameEntries(s);
    assert s.path.Keys == {ROOT, a, b};
    assert s.path[ROOT] == "/" && s.path[a] == "/a" && s.path[b] == "/b";
    MiddleRoot(s.index, ROOT, a, b);
    OwnPath(s.path, "/a", a);
    NotTrapped(s, "/a");
  }

  /** Two directories are made, and the first is removed: it is the root of the index. mcachefs aborts,
      or goes on with an index that still holds it. */
  method RemoveFirst() returns (s: Store, r: Outcome)
    ensures Harms(r)
  {
    hide Store.Valid, DoHash, Troubled, Trips, Grew, AllRead, ToRead, WasRead, Store.Trapped, Sound, CanLeave, Damaged,
         OnlyAbove;
    ShortHashes();
    s := new Store();
    assert Join("/", "a") == "/a" && Join("/", "b") == "/b";
    NotTrapped(s, "/a");
    ghost var a := MakeDirectory(s, "a");
    NotTrapped(s, "/b");
    ghost var b := MakeDirectory(s, "b");
    Middle(s, a, b);
    s.IsSound();
    ghost var t0, dirs, id, t := s.Now(), s.dirs, 0, s.Now();
    OneThere(t0, dirs);
    BareMounted();
    r, id, t := s.RmdirUnlink("/a", true, BARE);
    NothingLeft(t0, dirs, a, true, BARE, t);
  }

  /** A path is looked up that begins with the name of a directory and has its hash: mcachefs aborts. */
  method ClashingName() returns (s: Store, r: Lookup)
    ensures r.Aborted?
  {
    hide Store.Valid, DoHash, Troubled, Trips, Grew, AllRead, ToRead, OnlyAbove, Store.Trapped;
    ShortHashes();
    ClashingHash();
    s := new Store();
    assert Join("/", "a") == "/a";
    NotTrapped(s, "/a");
    ghost var a := MakeDirectory(s, "a");
    TripsOver(s, a);
    BareMounted();
    r := s.FindLocked("/a3sbbtt", BARE);
  }

  lemma TripsOver(s: Store, a: nat)
    requires s.Valid() && s.path == map[ROOT := "/", a := "/a"] && a != ROOT
    ensures s.Trapped("/a3sbbtt")
  {
    hide FreeChain, WellNamed, Index.Valid, Index.Indexed, DoHash;
    ShortHashes();
    ClashingHash();
    SameEntries(s);
    var h := DoHash("/a3sbbtt");
    ChainListed(s.index, h);
    ChainOf(s.index, h);
    var chain := s.index.Chain(h);
    assert a in s.path && s.path[a] == "/a";
    assert chain[0] in s.path;
    assert OverrunsAt("/a"[1..], "/a3sbbtt"[1..], 1);
    assert Trips(s.path, "/a3sbbtt", chain[0]) && PassesAll(s.path, "/a3sbbtt", chain, 0);
  }

  /** On a source with one directory, that directory is created before the root directory was read. */
  method MadeTwice() returns (s: Store, r: Outcome)
    ensures r.Spoils?
  {
    hide Store.Valid, DoHash, Trips, Store.Trapped, Grew, AllRead, OnlyAbove, FatherMissing, FatherNoDirectory, Troubled;
    var disk: Disk := map["/" := [Item("a", Directory)]];
    ShortHashes();
    s := new Store();
    NotTrapped(s, "/a");
    s.InArena();
    ghost var t0, id, t := s.Now(), 0, s.Now();
    r, id, t := s.MakeEntry("/a", Directory, disk);
    OnlyListed(t0, t, disk);
  }

  lemma OnlyListed(t: Snapshot, t': Snapshot, disk: Disk)
    requires Grew(t, t', disk) && OnlyAbove(t, t', "/a") && disk == map["/" := [Item("a", Directory)]]
    requires t.path == map[ROOT := "/"] && ToRead(t, disk, ROOT)
    ensures !Misled(t'.path, "/a") && !FatherMissing(t'.path, "/a") && !Troubled(t'.path, "/a")
    ensures !ToRead(t', disk, ROOT) ==> "/a" in t'.path.Values
  {
    hide DoHash, Troubled, PathsOk, Grew, ReadWhole, Items, Confusing;
    ShortHashes();
    forall i | i in t'.path
      ensures t'.path[i] == "/" || t'.path[i] == "/a"
    {
      ListedPath(t, t', disk, "/a", "a", i);
    }
    GrewKeeps(t, t', disk, ROOT);
    assert IsJoin("/a", "/", "a");
    NothingAstray(t'.path, "/a");
    if !ToRead(t', disk, ROOT) { ListedThere(t, t', disk, "a"); }
  }

  /** What a lookup in the root directory reads. */
  lemma ListedPath(t: Snapshot, t': Snapshot, disk: Disk, q: string, n: string, i: nat)
    requires Grew(t, t', disk) && OnlyAbove(t, t', q) && TopLevel(q) && "/" in disk && disk["/"] == [Item(n, Directory)]
    requires t.path == map[ROOT := "/"] && i in t'.path
    ensures t'.path[i] == "/" || t'.path[i] == "/" + n
  {
    hide PathsOk, ReadWhole;
    GrewKeeps(t, t', disk, ROOT);
    if i !in t.path {
      assert FromDisk(t, t', disk, i);
      hide Grew;
      var f := t'.entry[i].father;
      PathLength(t'.entry, t'.path.Keys, t'.path, f);
      AboveTopLevel(t'.path[f], q);
      FatherPath(t'.entry, t'.path, i);
    }
  }

  lemma FatherPath(m: seq<Entry>, path: map<nat, string>, i: nat)
    requires PathsOk(m, path.Keys, path) && i in path && i != ROOT
    ensures i < |m| && m[i].father in path && path[i] == Join(path[m[i].father], m[i].name)
  {
    assert PathOk(m, path, i);
  }

  lemma ListedThere(t: Snapshot, t': Snapshot, disk: Disk, n: string)
    requires Grew(t, t', disk) && "/" in disk && disk["/"] == [Item(n, Directory)] && (n == "a" || n == "d")
    requires t.path == map[ROOT := "/"] && ToRead(t, disk, ROOT) && !ToRead(t', disk, ROOT)
    ensures "/" + n in t'.path.Values
  {
    hide PathsOk, ReadWhole, Items;
    GrewKeeps(t, t', disk, ROOT);
    assert ReadWhole(t', disk, ROOT);
    hide Grew, WasRead;
    WholeRoot(t', disk, n);
  }

  lemma WholeRoot(t: Snapshot, disk: Disk, n: string)
    requires ReadWhole(t, disk, ROOT) && t.path[ROOT] == "/" && disk["/"] == [Item(n, Directory)] && (n == "a" || n == "d")
    ensures "/" + n in t.path.Values
  {
    assert Item(n, Directory) in disk["/"] && HeldBy(t, disk, ROOT, Item(n, Directory));
    assert Join("/", n) == "/" + n;
  }

  lemma NothingAstray(path: map<nat, string>, q: string)
    requires TopLevel(q) && !Misled(path, q) && forall i :: i in path && DoHash(path[i]) == DoHash(q) ==> path[i] == q
    ensures !Troubled(path, q)
  {
    hide DoHash, Misled, Troubled, Clipped;
    FlatLevels(q);
    OneLevel(path, q);
    if Troubled(path, q) { OnlyRootAbove(path, q); }
  }

  lemma OneLevel(path: map<nat, string>, q: string)
    requires TopLevel(q)
    ensures !Clipped(path, q) && !Remote(path, q)
  {
    hide FatherMissing;
    NoFather(path);
    forall d, n | IsJoin(q, d, n)
      ensures d == "/"
    {
      TopLevelJoin(q, d, n);
    }
  }

  /** On the way to a name in the root directory there is nothing to go astray but the name. */
  lemma OnlyRootAbove(path: map<nat, string>, q: string)
    requires TopLevel(q) && Troubled(path, q)
    ensures Astray(path, q)
  {
    hide Confusing, Misled, Astray;
    assert q[1..][0] == q[1];
    var d :| OnTheWay(d, q) && Astray(path, d);
    AboveTopLevel(d, q);
  }

  method MakeClashing() returns (s: Store, ghost a: nat, ghost b: nat)
    ensures s.Valid() && s.path == map[ROOT := "/", a := "/ipigcnu", b := "/mgbclui"] && a != ROOT && b != ROOT && a != b
    ensures ROOT < |s.entry| && s.entry[ROOT].kind.Directory?
    ensures a < |s.entry| && s.entry[a].child.Empty? && b < |s.entry| && s.entry[b].child.Empty?
    ensures fresh(s) && fresh(s.index)
  {
    hide Store.Valid, DoHash, Trips, Store.Trapped;
    ShortHashes();
    FirstHash();
    SecondHash();
    FirstSlashed();
    SecondSlashed();
    s := new Store();
    assert Join("/", "ipigcnu") == "/ipigcnu" && Join("/", "mgbclui") == "/mgbclui";
    assert "/" + "/ipigcnu" == "//ipigcnu" && "/" + "/mgbclui" == "//mgbclui";
    NotTrapped(s, "/ipigcnu");
    a := MakeDirectory(s, "ipigcnu");
    OtherLetter(s.path, "/mgbclui", a);
    NotTrapped(s, "/mgbclui");
    b := MakeDirectory(s, "mgbclui");
  }

  /** Two directories whose paths have the same hash are made, and one is renamed: it cannot enter the
      index again. */
  method SharedHashMoved() returns (s: Store, r: Outcome)
    ensures Harms(r)
  {
    hide Store.Valid, DoHash, Store.Trapped, Grew, AllRead, ToRead, Troubled, Barred, CanMove, FatherMissing,
         FatherNoDirectory, AllKnown, Renamed, ReadForRename, Damaged, WasRead, Unread, Absolute, IsBelow, Mounted, Misses,
         Remote;
    ghost var a, b;
    s, a, b := MakeClashing();
    BothThere(s, a, b);
    NamesThere(s.path, a, b);
    s.InArena();
    ghost var t0, id, t := s.Now(), 0, s.Now();
    BareMounted();
    var w;
    r, w, id, t := s.RenameEntry("/mgbclui", "/b", BARE);
    NothingRead(t0, t, BARE);
  }

  lemma NamesThere(path: map<nat, string>, a: nat, b: nat)
    requires path == map[ROOT := "/", a := "/ipigcnu", b := "/mgbclui"] && a != ROOT && b != ROOT && a != b
    ensures path[b] == "/mgbclui" && "/mgbclui" in path.Values && "/b" !in path.Values
    ensures forall i :: i in path && path[i] == "/mgbclui" ==> i == b
    ensures Absolute("/mgbclui") && Absolute("/b") && !IsBelow("/mgbclui", "/b")
  {
    assert path[a][1] == 'i' && path[b][1] == 'm' && "/b"[1] == 'b';
  }

  lemma BothThere(s: Store, a: nat, b: nat)
    requires s.Valid() && s.path == map[ROOT := "/", a := "/ipigcnu", b := "/mgbclui"] && a != ROOT && b != ROOT && a != b
    requires ROOT < |s.entry| && s.entry[ROOT].kind.Directory?
    requires a < |s.entry| && s.entry[a].child.Empty? && b < |s.entry| && s.entry[b].child.Empty?
    ensures !s.Trapped("/mgbclui") && !CanMove(s.Now(), b, DoHash("/b"))
    ensures !FatherMissing(s.path, "/b") && !FatherNoDirectory(s.entry, s.path, "/b") && !Troubled(s.path, "/b")
    ensures forall i :: i in s.path ==> !Unread(s.entry, i)
    ensures !Barred(s.Now(), BARE, "/mgbclui") && forall j :: !ToRead(s.Now(), BARE, j)
    ensures !Misses(s.Now(), BARE, "/mgbclui") && !Remote(s.path, "/b")
  {
    hide FreeChain, Index.Valid, Index.Indexed, DoHash, Rooted, PathsOk, FatherMissing, FatherNoDirectory, MetFrom,
         Troubled, CanMove, Store.Trapped, TripsFirst, Misses, Remote;
    BothHashed(s, a, b);
    NamesThere(s.path, a, b);
    s.NotMissed("/mgbclui", BARE);
    s.InArena();
    InRoot(s.Now(), "/b", "b");
    OneLevel(s.path, "/b");
    if Unread(s.entry, ROOT) { LoneRoot(s.entry, s.dirs, s.path); }
  }

  lemma BothHashed(s: Store, a: nat, b: nat)
    requires s.Valid() && s.path == map[ROOT := "/", a := "/ipigcnu", b := "/mgbclui"] && a != ROOT && b != ROOT && a != b
    ensures !s.Trapped("/mgbclui") && !CanMove(s.Now(), b, DoHash("/b")) && !Troubled(s.path, "/b")
  {
    hide Store.Valid, DoHash, Trips, Troubled, CanMove, Store.Trapped;
    ShortHashes();
    FirstHash();
    SecondHash();
    assert s.path[a] == "/ipigcnu" && s.path[b] == "/mgbclui" && s.path[ROOT] == "/";
    OtherLetter(s.path, "/mgbclui", a);
    OwnPath(s.path, "/mgbclui", b);
    NotTrapped(s, "/mgbclui");
    SharedStays(s, b, a, DoHash("/b"));
    NothingAstray(s.path, "/b");
  }

  // ---------------------------------------------------------------- more than one level down

  /** A source with one file, three levels down. */
  const DEEP: Disk :=
    map["/" := [Item("d", Directory)], "/d" := [Item("e", Directory)], "/d/e" := [Item("f", Regular)]]

  /** What the source gives lies on the way to the file. */
  ghost predicate AllDeep(path: map<nat, string>) {
    forall i :: i in path ==> path[i] == "/" || path[i] == "/d" || path[i] == "/d/e" || path[i] == "/d/e/f"
  }

  lemma DeepPaths(t: Snapshot, t': Snapshot)
    requires Grew(t, t', DEEP) && AllDeep(t.path) && ROOT in t.path
    ensures AllDeep(t'.path)
  {
    hide PathsOk, ReadWhole, Items;
    forall i | i in t'.path && i !in t.path
      ensures t'.path[i] == "/d" || t'.path[i] == "/d/e" || t'.path[i] == "/d/e/f"
    {
      assert FromDisk(t, t', DEEP, i);
      DeepPath(t', i);
    }
    forall i | i in t.path
      ensures t'.path[i] == t.path[i]
    {
      GrewKeeps(t, t', DEEP, i);
    }
  }

  lemma DeepPath(t: Snapshot, i: nat)
    requires PathsOk(t.entry, t.path.Keys, t.path) && i in t.path && i != ROOT && i < |t.entry|
    requires HeldBy(t, DEEP, t.entry[i].father, Item(t.entry[i].name, t.entry[i].kind))
    ensures t.path[i] == "/d" || t.path[i] == "/d/e" || t.path[i] == "/d/e/f"
  {
    hide PathsOk;
    var f := t.entry[i].father;
    FatherPath(t.entry, t.path, i);
  }

  /** The directories on the way. */
  lemma WayDown(d: string)
    requires OnTheWay(d, "/d/e/f")
    ensures d == "/d" || d == "/d/e" || d == "/d/e/f"
  {
    var q := "/d/e/f";
    if d != q {
      var k := |d|;
      assert q[..k] == d && q[k] == (d + "/")[k];
      assert k == 2 || k == 4;
    }
  }

  /** No two of the hashes met on the way are the same. */
  lemma DeepClear(path: map<nat, string>)
    requires AllDeep(path)
    ensures !Troubled(path, "/d/e/f") && !Misled(path, "/d")
  {
    hide DoHash;
    DeepHashes();
    FlatLevels("/d");
    DeepLevels();
    forall d | OnTheWay(d, "/d/e/f")
      ensures !Astray(path, d)
    {
      WayDown(d);
      DeepClipped(path, d);
    }
  }

  lemma DeepLevels()
    ensures Levels("/d/e") == 2 && Levels("/d/e/f") == 3
  {
    assert IsJoin("/d/e", "/d", "e") && IsJoin("/d/e/f", "/d/e", "f");
    FlatLevels("/d");
    JoinLevels("/d", "e");
    JoinLevels("/d/e", "f");
  }

  lemma DeepClipped(path: map<nat, string>, d: string)
    requires AllDeep(path) && (d == "/d" || d == "/d/e" || d == "/d/e/f")
    ensures !Clipped(path, d)
  {
    hide DoHash;
    DeepHashes();
    assert IsJoin("/d", "/", "d") && IsJoin("/d/e", "/d", "e") && IsJoin("/d/e/f", "/d/e", "f");
    forall p, n | IsJoin(d, p, n) && p != "/"
      ensures Join(p, n[1..]) == "/d/" || Join(p, n[1..]) == "/d/e/"
    {
      if d == "/d" { JoinInjective("/", "d", p, n); }
      if d == "/d/e" { JoinInjective("/d", "e", p, n); }
      if d == "/d/e/f" { JoinInjective("/d/e", "f", p, n); }
    }
  }

  /** A file of the source is looked up when only the root directory was read: below the first level its
      name is searched without its first letter, and not found. */
  method DeepLookup() returns (s: Store, r: Lookup)
    ensures r.Missing? && "/d" in s.path.Values
  {
    hide Store.Valid, DoHash, Trips, Store.Trapped, Grew, AllRead, OnlyAbove, Troubled, Misled, FatherMissing, AllDeep;
    DeepHashes();
    s := new Store();
    NotTrapped(s, "/d");
    DeepMounted();
    s.InArena();
    ghost var t0 := s.Now();
    r := s.FindLocked("/d", DEEP);
    s.InArena();
    ghost var t := s.Now();
    OneLevelRead(t0, t);
    DeepClear(t.path);
    assert "/" + "d" == "/d";
    ListedThere(t0, t, DEEP, "d");
    r := s.FindLocked("/d/e/f", DEEP);
    DeepPaths(t, s.Now());
    StillThere(t, s.Now(), DEEP, "/d");
    DeepClear(s.path);
  }

  lemma StillThere(t: Snapshot, t': Snapshot, disk: Disk, q: string)
    requires Grew(t, t', disk) && q in t.path.Values
    ensures q in t'.path.Values
  {
    var i :| i in t.path && t.path[i] == q;
    GrewKeeps(t, t', disk, i);
    assert t'.path[i] == q;
  }

  lemma DeepMounted()
    ensures Mounted(DEEP) && TopLevel("/d") && Absolute("/d") && Absolute("/d/e/f")
  {
  }

  lemma OneLevelRead(t: Snapshot, t': Snapshot)
    requires Grew(t, t', DEEP) && OnlyAbove(t, t', "/d") && t.path == map[ROOT := "/"]
    ensures AllDeep(t'.path) && FatherMissing(t'.path, "/d/e/f")
  {
    hide Grew, OnlyAbove;
    forall i | i in t'.path
      ensures t'.path[i] == "/" || t'.path[i] == "/d"
    {
      ListedPath(t, t', DEEP, "/d", "d", i);
    }
    assert IsJoin("/d/e/f", "/d/e", "f");
  }
}
