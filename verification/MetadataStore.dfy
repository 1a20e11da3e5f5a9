/** The metadata store: an arena of entries that are either part of the directory tree, and then
    indexed by the hash of their path, or on the free list. */
module MetadataStore {
  import opened Balance
  import opened DirForest
  import opened FetchWalk
  import opened HashIndex
  import opened IndexSearch
  import opened PathHash
  import opened PathNames
  import opened Removal
  import opened Sequences
  import opened StoreReading
  import opened StoreState
  import opened StoreMoves
  import opened SubtreeWalk

  const MAX_LEVELS: nat := 1024

  /** How the store compares the entry `id` at path `p` with a query: more levels than it has room
      for, and the root itself, make it abort. */
  ghost function CompareEntry(id: nat, p: string, q: string, size: int): Match
    requires p != "" && q != ""
  {
    if q == "/" then (if id == ROOT then Yes else No)
    else if id == ROOT || Levels(p) >= MAX_LEVELS then Crash
    else Compare(p[1..], q[1..], size)
  }

  /** How an operation ends. `Aborts`: mcachefs aborts or dereferences a null pointer before it changes
      anything. `Breaks`: it aborts while it changes the index. `Corrupts`: it goes on, but its index is
      no longer well-formed. `Spoils`: it goes on, but its tree is not one: a name is there twice, or a
      file has an entry below it. */
  datatype Outcome =
    | Done | Exists | NoEntry | NotDirectory | NotEmpty | NotSupported | Aborts | Breaks | Corrupts | Spoils

  ghost predicate Harms(r: Outcome) {
    r.Breaks? || r.Corrupts?
  }

  /** The index is well-formed without the entry. */
  ghost predicate CanLeave(t: Snapshot, i: nat) {
    i < |t.cprev| && i < |t.cnext| && (t.cprev[i] != 0 || (t.cnext[i] != 0 <==> i == t.root))
  }

  /** It is so without it, and again with it under the hash `h`. */
  ghost predicate CanMove(t: Snapshot, i: nat, h: nat) {
    CanLeave(t, i) && t.cnext[i] == 0 &&
    (t.cprev[i] != 0 ==> exists j :: j in t.path && j != i && Hashed(t.hash, h, j))
  }

  /** The index does not hold exactly the entries `s`. */
  ghost predicate Damaged(t: Snapshot, s: set<nat>) {
    !Indexes(t.hash, t.node, t.cnext, t.cprev, t.root, s)
  }

  /** The query shares its hash with another path, or has more levels than a comparison can take. */
  ghost predicate Confusing(path: map<nat, string>, q: string) {
    exists i :: i in path && DoHash(path[i]) == DoHash(q) && (path[i] != q || Levels(q) >= MAX_LEVELS)
  }

  /** The directory that should hold `q` is not there. */
  ghost predicate FatherMissing(path: map<nat, string>, q: string) {
    exists d, n :: IsJoin(q, d, n) && d !in path.Values
  }

  /** Walking down from the root, mcachefs hashes a second slash: some other entry has that hash. */
  ghost predicate Misled(path: map<nat, string>, q: string) {
    exists i :: i in path && DoHash(path[i]) == DoHash("/" + q)
  }

  /** Walking down more than one level, mcachefs leaves out the first letter of a name: what is left has
      the hash of some entry. */
  ghost predicate Clipped(path: map<nat, string>, d: string) {
    exists p, n, i :: IsJoin(d, p, n) && p != "/" && i in path && DoHash(path[i]) == DoHash(Join(p, n[1..]))
  }

  /** A lookup that comes to `d` may go wrong. */
  ghost predicate Astray(path: map<nat, string>, d: string) {
    Confusing(path, d) || (TopLevel(d) && Misled(path, d)) || Clipped(path, d)
  }

  /** A lookup finds nothing at `q`: it has to come through the root directory, which is still to be read,
      or more than one level down from what is there. */
  ghost predicate Misses(t: Snapshot, disk: Disk, q: string) {
    (q != "/" && ToRead(t, disk, ROOT)) || FatherMissing(t.path, q)
  }

  /** Not even the directory of the directory of `q` is there. */
  ghost predicate Remote(path: map<nat, string>, q: string) {
    exists d, n :: IsJoin(q, d, n) && FatherMissing(path, d)
  }

  /** The query itself, or a directory above it other than the root. */
  ghost predicate OnTheWay(d: string, q: string) {
    d == q || (d != "" && IsBelow(d, q))
  }

  /** Looking up `q`, or a directory on the way to it, may go wrong. */
  ghost predicate Troubled(path: map<nat, string>, q: string) {
    exists d :: OnTheWay(d, q) && Astray(path, d)
  }

  /** Trouble on the way to the directory of `q` is trouble on the way to `q`. */
  lemma TroubledBelow(path: map<nat, string>, q: string, d: string, n: string)
    requires IsJoin(q, d, n) && d != "/" && Troubled(path, d)
    ensures Troubled(path, q)
  {
    var p :| OnTheWay(p, d) && Astray(path, p);
    assert q == d + "/" + n;
    assert OnTheWay(p, q);
  }

  /** Where a directory on the way is mistaken for another one. */
  lemma PartOf(path: map<nat, string>, q: string, size: nat)
    requires 1 < size < |q| && q[size] == '/' && q[0] == '/'
    ensures IsBelow(q[..size], q) && q[..size][0] == '/' && |q[..size]| == size && q[..size] != "/" && Prefix(q[..size]) == q[..size]
    ensures Confusing(path, q[..size]) ==> Troubled(path, q)
  {
    assert q[..size] + "/" == q[..size + 1];
    assert OnTheWay(q[..size], q);
  }

  lemma StillTroubled(path: map<nat, string>, path': map<nat, string>, q: string)
    requires Troubled(path, q) && Extends(path, path')
    ensures Troubled(path', q)
  {
    var d :| OnTheWay(d, q) && Astray(path, d);
    if Confusing(path, d) {
      var i :| i in path && DoHash(path[i]) == DoHash(d) && (path[i] != d || Levels(d) >= MAX_LEVELS);
      assert path'[i] == path[i];
    } else if TopLevel(d) && Misled(path, d) {
      var i :| i in path && DoHash(path[i]) == DoHash("/" + d);
      assert path'[i] == path[i];
    } else {
      var p, n, i :| IsJoin(d, p, n) && p != "/" && i in path && DoHash(path[i]) == DoHash(Join(p, n[1..]));
      assert path'[i] == path[i];
    }
    assert Astray(path', d);
  }

  /** `i` is what a walk down from `father` takes for its child `name`. */
  ghost predicate Walked(m: seq<Entry>, hash: seq<nat>, father: nat, name: string, i: nat) {
    && i < |m| && i < |hash| && father < |hash| && m[i].father == father
    && hash[i] == Hash(Hash(hash[father], "/"), name) && name <= m[i].name
  }

  /** What the search for a directory, by the part of the query up to it, finds. */
  lemma PartialLookup(m: seq<Entry>, live: set<nat>, path: map<nat, string>, hash: seq<nat>, q: string, d: string, r: Lookup)
    requires PathsOk(m, live, path) && HashesOk(hash, path, {}) && IsBelow(d, q) && |d| > 1 && d[0] == '/'
    requires r.Found? ==> r.id in live && Candidate(hash, path, DoHash(d), q, |d|, r.id, Yes)
    requires r.Missing? ==>
               forall i :: i in live && Hashed(hash, DoHash(d), i) ==> Candidate(hash, path, DoHash(d), q, |d|, i, No)
    requires r.Aborted? ==> exists i :: i in live && Candidate(hash, path, DoHash(d), q, |d|, i, Crash)
    ensures r.Found? ==> path[r.id] == d || Confusing(path, d)
    ensures r.Missing? ==> d !in path.Values
    ensures r.Aborted? ==> Confusing(path, d)
  {
    assert q[..|d|] == d && q[1..][..|d| - 1] == d[1..];
    forall i | i in live
      ensures Hashed(hash, DoHash(path[i]), i) && path[i] != "" && path[i][0] == '/'
      ensures path[i] == d && Levels(d) < MAX_LEVELS ==> CompareEntry(i, path[i], q, |d|).Yes?
    {
      PathLength(m, live, path, i);
      ComparePartial(path[i][1..], q[1..], |d|);
    }
  }

  /** The name at `q` itself would be taken for it, were it a child of a directory other than the root. */
  lemma NoneWalked(m: seq<Entry>, live: set<nat>, dirs: Forest, path: map<nat, string>, hash: seq<nat>, father: nat, n: string)
    requires Rooted(m, dirs) && live == All(dirs) && PathsOk(m, live, path) && HashesOk(hash, path, {})
    requires father in live && father != ROOT && ValidName(n) && |hash| == |m|
    requires forall i :: i in live ==> !Walked(m, hash, father, n, i)
    ensures Join(path[father], n) !in path.Values
  {
    PathLength(m, live, path, father);
    HashOfName(m, dirs, path, father, n);
    if i :| i in live && path[i] == Join(path[father], n) {
      PathLength(m, live, path, i);
      JoinShape(path[father], n);
      assert PathOk(m, path, i);
      JoinInjective(path[father], n, path[m[i].father], m[i].name);
      PathInjective(m, live, path, father, m[i].father);
      assert false;
    }
  }

  /** The hash a walk down from `father` looks for. */
  lemma HashOfName(m: seq<Entry>, dirs: Forest, path: map<nat, string>, father: nat, n: string)
    requires Rooted(m, dirs) && PathsOk(m, All(dirs), path) && father in All(dirs)
    ensures Hash(Hash(DoHash(path[father]), "/"), n) == DoHash(if father == ROOT then "/" + Join("/", n) else Join(path[father], n))
  {
    var _, _ := Find(m, dirs, father);
    HashBuilt(m, dirs, path, father, n);
    if father == ROOT {
      HashConcat(SEED, "/", "/");
      HashConcat(SEED, "/" + "/", n);
      assert "/" + Join("/", n) == "/" + "/" + n;
    }
  }

  /** What a walk down found: what it asked for, or another entry with the same hash; in the root always one
      with the hash of the path with a second slash in front. */
  lemma WalkFound(m: seq<Entry>, dirs: Forest, path: map<nat, string>, hash: seq<nat>, father: nat, n: string, i: nat)
    requires Rooted(m, dirs) && PathsOk(m, All(dirs), path) && HashesOk(hash, path, {}) && father in All(dirs) && i in All(dirs)
    requires Walked(m, hash, father, n, i)
    ensures path[father] != "" && i != ROOT
    ensures if father == ROOT then Misled(path, Join("/", n)) else DoHash(path[i]) == DoHash(Join(path[father], n))
    ensures father != ROOT ==> path[i] == Join(path[father], n) || Confusing(path, Join(path[father], n))
  {
    HashOfName(m, dirs, path, father, n);
    var _, _ := Find(m, dirs, i);
    var _, _ := Find(m, dirs, father);
    assert Hashed(hash, DoHash(path[i]), i) && Hashed(hash, DoHash(path[father]), father);
    PathLength(m, All(dirs), path, father);
    if father == ROOT {
      assert DoHash(path[i]) == DoHash("/" + Join("/", n));
    }
  }

  /** What is there has a directory to be in. */
  lemma InDirectory(m: seq<Entry>, hash: seq<nat>, dirs: Forest, path: map<nat, string>, id: nat)
    requires WellNamed(m, hash, dirs, path, {}) && id in path && id != ROOT
    ensures !FatherMissing(path, path[id]) && !FatherNoDirectory(m, path, path[id])
  {
    hide Rooted, HashesOk;
    assert PathOk(m, path, id);
    var f := m[id].father;
    PathLength(m, All(dirs), path, f);
    JoinShape(path[f], m[id].name);
    assert Above(path[f], path[id]);
    ReadAbove(m, dirs, path, id, f);
    forall d, n | IsJoin(path[id], d, n)
      ensures d == path[f]
    {
      JoinInjective(path[f], m[id].name, d, n);
    }
    forall i | i in path && path[i] == path[f]
      ensures i == f
    {
      PathInjective(m, All(dirs), path, i, f);
    }
  }

  ghost predicate FatherNoDirectory(m: seq<Entry>, path: map<nat, string>, q: string) {
    exists d, n, i :: IsJoin(q, d, n) && i in path && path[i] == d && i < |m| && !m[i].kind.Directory?
  }

  ghost predicate MadeEntry(m: seq<Entry>, path: map<nat, string>, id: nat, q: string, kind: Kind) {
    && id in path && path[id] == q && id < |m| && m[id].kind == kind
    && m[id].child == if kind.Directory? then Empty else NotFetched
  }

  /** How re-indexing ends: an entry met on the way may be a directory that was not read, or re-indexing
      it may harm the index, if mcachefs does not abort. */
  datatype Walk = Complete | Partial(id: nat) | Stuck(id: nat, aborted: bool)

  datatype Lookup = Found(id: nat) | Missing | Aborted

  /** An entry with hash `h`, and how it compares with the query. */
  ghost predicate Candidate(hash: seq<nat>, path: map<nat, string>, h: nat, q: string, size: int, i: nat, r: Match) {
    Hashed(hash, h, i) && i in path && path[i] != "" && q != "" && CompareEntry(i, path[i], q, size) == r
  }

  /** None of the first `k` entries of a chain matches the query. */
  ghost predicate NoneUpTo(hash: seq<nat>, path: map<nat, string>, h: nat, q: string, size: int, s: seq<nat>, k: nat) {
    k <= |s| && forall j :: 0 <= j < k ==> Candidate(hash, path, h, q, size, s[j], No)
  }

  lemma Passed(hash: seq<nat>, path: map<nat, string>, h: nat, q: string, size: int, s: seq<nat>, k: nat)
    requires k < |s| && NoneUpTo(hash, path, h, q, size, s, k) && Candidate(hash, path, h, q, size, s[k], No)
    ensures NoneUpTo(hash, path, h, q, size, s, k + 1)
  {
  }

  /** What comes of comparing the entries of a chain in their order. */
  ghost function Scan(path: map<nat, string>, q: string, size: int, s: seq<nat>): Lookup
    requires q != ""
  {
    if s == [] || s[0] !in path || path[s[0]] == "" then Missing else
      match CompareEntry(s[0], path[s[0]], q, size)
      case Yes => Found(s[0])
      case Crash => Aborted
      case No => Scan(path, q, size, s[1..])
  }

  /** Comparing the entry with `q` in full makes the store abort: it is the root, or too deep, or
      ends, in a name or as a whole, where `q` goes on. */
  ghost predicate Trips(path: map<nat, string>, q: string, i: nat) {
    i in path && path[i] != "" && q != "" &&
    (i == ROOT || Levels(path[i]) >= MAX_LEVELS || exists k: nat :: OverrunsAt(path[i][1..], q[1..], k))
  }

  /** The entry is neither at `q` nor does comparing it make the store abort. */
  ghost predicate Passes(path: map<nat, string>, q: string, i: nat) {
    i in path && path[i] != q && !Trips(path, q, i)
  }

  ghost predicate PassesAll(path: map<nat, string>, q: string, s: seq<nat>, k: nat) {
    forall j :: 0 <= j < k && j < |s| ==> Passes(path, q, s[j])
  }

  /** The first entry of the chain that has path `q` or trips over it does the latter. */
  ghost predicate TripsFirst(path: map<nat, string>, q: string, s: seq<nat>) {
    exists k :: 0 <= k < |s| && Trips(path, q, s[k]) && PassesAll(path, q, s, k)
  }

  lemma TripsNext(path: map<nat, string>, q: string, s: seq<nat>)
    requires s != []
    ensures TripsFirst(path, q, s) <==> Trips(path, q, s[0]) || (Passes(path, q, s[0]) && TripsFirst(path, q, s[1..]))
  {
    hide Trips;
    var t := s[1..];
    if TripsFirst(path, q, s) && !Trips(path, q, s[0]) {
      var k :| 0 <= k < |s| && Trips(path, q, s[k]) && PassesAll(path, q, s, k);
      assert Trips(path, q, t[k - 1]) && PassesAll(path, q, t, k - 1);
    }
    if Passes(path, q, s[0]) && TripsFirst(path, q, t) {
      var k :| 0 <= k < |t| && Trips(path, q, t[k]) && PassesAll(path, q, t, k);
      assert Trips(path, q, s[k + 1]) && PassesAll(path, q, s, k + 1);
    }
    if Trips(path, q, s[0]) {
      assert PassesAll(path, q, s, 0);
    }
  }

  lemma Tripping(path: map<nat, string>, q: string, i: nat)
    requires i in path && path[i] != "" && path[i][0] == '/' && q != "" && q[0] == '/' && q != "/"
    ensures CompareEntry(i, path[i], q, |q|).Crash? <==> Trips(path, q, i)
    ensures CompareEntry(i, path[i], q, |q|).No? <==> !Trips(path, q, i) && path[i] != q
  {
    CompareFull(path[i][1..], q[1..], |q|);
    CompareCrash(path[i][1..], q[1..], |q|);
    assert path[i] == "/" + path[i][1..] && q == "/" + q[1..];
  }

  lemma {:induction false} ScanAborts(path: map<nat, string>, q: string, s: seq<nat>)
    requires q != "" && q[0] == '/' && q != "/"
    requires forall i :: i in s ==> i in path && path[i] != "" && path[i][0] == '/'
    ensures Scan(path, q, |q|, s).Aborted? <==> TripsFirst(path, q, s)
  {
    hide Trips, CompareEntry, TripsFirst;
    if s == [] {
      NoneTrips(path, q);
    } else {
      assert s[0] in s && forall i :: i in s[1..] ==> i in s;
      Tripping(path, q, s[0]);
      TripsNext(path, q, s);
      ScanAborts(path, q, s[1..]);
    }
  }

  lemma NoneTrips(path: map<nat, string>, q: string)
    ensures !TripsFirst(path, q, [])
  {
  }

  /** How a comparison in full of an entry's path with a query turns out. */
  lemma ComparedInFull(i: nat, p: string, q: string)
    requires p != "" && q != "" && p[0] == '/' && q[0] == '/' && (p == "/" <==> i == ROOT)
    ensures CompareEntry(i, p, q, |q|).Yes? ==> p == q
    ensures p == q && (Levels(q) < MAX_LEVELS || q == "/") ==> CompareEntry(i, p, q, |q|).Yes?
    ensures CompareEntry(i, p, q, |q|).No? ==> p != q
  {
    CompareFull(p[1..], q[1..], |q|);
    assert p == "/" + p[1..] && q == "/" + q[1..];
  }

  /** What a search for the hash of a full path finds. */
  lemma FullLookup(m: seq<Entry>, live: set<nat>, path: map<nat, string>, hash: seq<nat>, q: string, r: Lookup)
    requires PathsOk(m, live, path) && HashesOk(hash, path, {}) && q != "" && q[0] == '/'
    requires r.Found? ==> r.id in live && Candidate(hash, path, DoHash(q), q, |q|, r.id, Yes)
    requires r.Missing? ==>
               forall i :: i in live && Hashed(hash, DoHash(q), i) ==> Candidate(hash, path, DoHash(q), q, |q|, i, No)
    requires r.Aborted? ==> exists i :: i in live && Candidate(hash, path, DoHash(q), q, |q|, i, Crash)
    ensures r.Found? ==> path[r.id] == q
    ensures r.Missing? ==> q !in path.Values
    ensures r.Aborted? ==> Confusing(path, q)
  {
    forall i | i in live
      ensures Hashed(hash, DoHash(path[i]), i)
      ensures CompareEntry(i, path[i], q, |q|).Yes? ==> path[i] == q
      ensures CompareEntry(i, path[i], q, |q|).No? ==> path[i] != q
      ensures CompareEntry(i, path[i], q, |q|).Crash? ==> path[i] != q || Levels(q) >= MAX_LEVELS
    {
      PathLength(m, live, path, i);
      ComparedInFull(i, path[i], q);
    }
  }

  /** What is below an entry, in postorder, is all that is live and below it, once each. */
  lemma DrainedOnce(m: seq<Entry>, dirs: Forest, c: Spot, f: Forest)
    requires f.Cons? && At(m, c, f, f.id) && Fill(c, f) == dirs
    ensures f.id in All(dirs) && f.id !in All(f.kids) && All(f.kids) <= All(dirs)
    ensures Elements(Postorder(f.kids)) == All(f.kids) && NoDup(Postorder(f.kids))
  {
    PostorderIds(f.kids);
    WalksOnce(f.kids);
    FillIds(c, f);
  }

  /** A walk down from `father` has come to `current`. The next name begins after `at`: at first that is the
      slash, later on it is the letter after the slash. */
  ghost predicate Descending(t0: Snapshot, t: Snapshot, disk: Disk, q: string, father: nat, current: nat, at: nat, later: bool) {
    && Grew(t0, t, disk) && OnlyAbove(t0, t, q) && current in t.path && at < |q|
    && (if later then at > 0 && current != ROOT && SplitsAt(q, at - 1, t.path[current]) && Misses(t0, disk, q) && !TopLevel(q)
        else SplitsAt(q, at, t.path[current]) && t == t0 && current == father && (TopLevel(q) ==> father == ROOT)
             && NoneDeeper(t.path, q, at) && q !in t.path.Values)
  }

  /** How a walk down may end. */
  ghost predicate WalkEnd(t0: Snapshot, t: Snapshot, disk: Disk, q: string, r: Lookup) {
    && Grew(t0, t, disk) && OnlyAbove(t0, t, q)
    && (r.Found? ==> r.id in t.path && t.path[r.id] == q && (Misses(t0, disk, q) ==> Troubled(t.path, q)))
    && (r.Missing? && !Misses(t0, disk, q) ==> q !in t.path.Values && AllRead(t, disk, q))
    && (r.Missing? ==> !ToRead(t, disk, ROOT))
    && (r.Aborted? ==> Troubled(t.path, q) && (TopLevel(q) ==> Misled(t.path, q)))
  }

  lemma Position(t0: Snapshot, t: Snapshot, disk: Disk, q: string, father: nat, current: nat, at: nat, later: bool)
    requires Descending(t0, t, disk, q, father, current, at, later)
    ensures current in t.path && at < |q|
    ensures if later then at > 0 && current != ROOT && SplitsAt(q, at - 1, t.path[current])
            else SplitsAt(q, at, t.path[current]) && NoneDeeper(t.path, q, at) && q !in t.path.Values
  {
  }

  /** A query that goes on after a part of it that was not there comes from a directory that was not. */
  lemma DeeperMissing(path: map<nat, string>, q: string, size: nat, end: nat)
    requires Absolute(q) && q != "/" && NoneDeeper(path, q, size) && size < end < |q| && q[end] == '/'
    ensures FatherMissing(path, q) && !TopLevel(q)
  {
    var d, n := AbsoluteSplit(q);
    JoinShape(d, n);
    TopLevelJoin(q, d, n);
    assert q == Prefix(d) + "/" + n && q[..|Prefix(d)|] == Prefix(d);
  }

  lemma NoFather(path: map<nat, string>)
    ensures !FatherMissing(path, "/")
  {
    forall d, n | IsJoin("/", d, n)
      ensures false
    {
      JoinShape(d, n);
    }
  }

  /** A directory that is missed, or not there, after a lookup below it. */
  lemma MissedTwice(t: Snapshot, t1: Snapshot, t2: Snapshot, disk: Disk, q: string, d: string, n: string)
    requires Grew(t, t1, disk) && IsJoin(q, d, n) && d != "/" && !ToRead(t1, disk, ROOT)
    requires Misses(t1, disk, d) || d !in t2.path.Values
    ensures FatherMissing(t2.path, q) || Remote(t.path, q)
  {
    hide Grew, ToRead;
    if FatherMissing(t1.path, d) {
      MissingBefore(t, t1, disk, d);
    }
  }

  /** What is missed after reading was missed before. */
  lemma StillMissed(t: Snapshot, t': Snapshot, disk: Disk, q: string)
    requires Grew(t, t', disk) && !ToRead(t', disk, ROOT)
    ensures Misses(t', disk, q) ==> Misses(t, disk, q)
    ensures Remote(t'.path, q) ==> Remote(t.path, q)
  {
    hide Grew, ToRead, FatherMissing;
    if FatherMissing(t'.path, q) { MissingBefore(t, t', disk, q); }
    if Remote(t'.path, q) {
      var d, n :| IsJoin(q, d, n) && FatherMissing(t'.path, d);
      MissingBefore(t, t', disk, d);
    }
  }

  lemma MissingBefore(t: Snapshot, t': Snapshot, disk: Disk, q: string)
    requires Grew(t, t', disk) && FatherMissing(t'.path, q)
    ensures FatherMissing(t.path, q)
  {
    assert Extends(t.path, t'.path);
    var d, n :| IsJoin(q, d, n) && d !in t'.path.Values;
    forall i | i in t.path
      ensures t.path[i] != d
    {
      assert t'.path[i] in t'.path.Values;
    }
  }

  lemma QueryPart(q: string, end: nat)
    requires Absolute(q) && q != "/" && 0 < end <= |q| && (end == |q| || q[end] == '/')
    ensures OnTheWay(q[..end], q) && q[..end] != "" && q[..end][0] == '/'
  {
    assert q[..|q|] == q;
    if end < |q| { assert q[..end] + "/" == q[..end + 1]; }
  }

  /** What is found by a name without its first letter. */
  lemma LetterLeftOut(path: map<nat, string>, father: nat, q: string, at: nat, end: nat, i: nat)
    requires Absolute(q) && q != "/" && 0 < at < end <= |q| && (end == |q| || q[end] == '/') && '/' !in q[at + 1..end]
    requires father in path && path[father] != "" && path[father][0] == '/' && path[father] != "/" && SplitsAt(q, at - 1, path[father])
    requires i in path && DoHash(path[i]) == DoHash(Join(path[father], q[at + 1..end]))
    ensures Clipped(path, q[..end])
  {
    hide DoHash;
    SlashNext(q, at - 1);
    var n := q[at..end];
    assert n == [q[at]] + q[at + 1..end] && n[1..] == q[at + 1..end] && q[at - 1 + 1..end] == n;
    NextName(q, at - 1, path[father], end);
    assert IsJoin(q[..end], path[father], n);
  }

  /** A query that goes on with one name from a directory that is there. */
  lemma WholeWay(path: map<nat, string>, q: string, size: nat, id: nat)
    requires Absolute(q) && q != "/" && id in path && path[id] != "" && SplitsAt(q, size, path[id]) && '/' !in q[size + 1..]
    ensures !FatherMissing(path, q)
  {
    assert q[size + 1..] == q[size + 1..|q|] && q[..|q|] == q;
    NextName(q, size, path[id], |q|);
    forall d, n | IsJoin(q, d, n)
      ensures d in path.Values
    {
      JoinInjective(path[id], q[size + 1..], d, n);
    }
  }

  /** What one step of a walk down leads to. */
  lemma Arrived(t0: Snapshot, t: Snapshot, t': Snapshot, disk: Disk, q: string, father: nat, current: nat, at: nat, later: bool,
                r: Lookup, end: nat)
    requires Descending(t0, t, disk, q, father, current, at, later) && Absolute(q) && q != "/"
    requires Grew(t, t', disk) && (forall i :: WasRead(t, t', i) ==> i == current) && Above(t.path[current], q)
    requires !ToRead(t, disk, current) ==> t' == t
    requires at < end <= |q| && (end == |q| || q[end] == '/') && '/' !in q[at + 1..end]
    requires r.Found? ==>
               && r.id in t'.path && r.id != ROOT && t'.path[r.id] == q[..end]
               && (later || current == ROOT ==> Troubled(t'.path, q))
    requires r.Aborted? ==> Troubled(t'.path, q) && (current == ROOT ==> Misled(t'.path, q[..end]))
    requires r.Missing? ==> !ToRead(t', disk, ROOT)
    requires r.Missing? && !later && (current != ROOT || (NoneDeeper(t'.path, q, at) && q !in t'.path.Values)) ==>
               q !in t'.path.Values && AllRead(t', disk, q)
    requires (!later && current != ROOT ==> !ToRead(t, disk, ROOT)) && t.path[current] != ""
    ensures if r.Found? && end < |q| then Descending(t0, t', disk, q, father, r.id, end + 1, true)
            else WalkEnd(t0, t', disk, q, r)
  {
    hide Grew, WasRead, Troubled, OnlyAbove, NoneDeeper, AllRead, ToRead, Above, FatherMissing;
    OneMoreAbove(t0, t, t', disk, q, current);
    assert q[..|q|] == q;
    if end < |q| {
      SlashNext(q, end);
      if !later { DeeperMissing(t.path, q, at, end); }
    } else if !later {
      assert q[at + 1..end] == q[at + 1..];
      WholeWay(t.path, q, at, current);
    }
  }

  /** The entry `id` has been carried to a directory under a name; it is of the kind it was, and was read if
      it had been. All others are where they were. */
  ghost predicate Carried(m: seq<Entry>, m': seq<Entry>, live: set<nat>, id: nat, father: nat, name: string) {
    && StayPut(m, m', live - {id}, father) && id < |m| && id < |m'|
    && m'[id].father == father && m'[id].name == name && m'[id].kind == m[id].kind && m'[id].child == m[id].child
  }

  lemma NoStaleLinks(index: Index, id: nat, h: nat)
    requires index.Pristine(id)
    ensures index.InsertableAs(id, h)
  {
  }

  class Store {
    const index: Index
    var entry: seq<Entry>
    var firstFree: nat
    ghost var dirs: Forest
    ghost var free: seq<nat>
    ghost var path: map<nat, string>

    /** The entries of the directory tree. */
    ghost function Live(): set<nat>
      reads this
    {
      All(dirs)
    }

    /** `live` is indexed, all else is free or, for those in `taken`, in the hands of the caller. */
    ghost predicate Arena(live: set<nat>, taken: set<nat>)
      reads this, index
    {
      && index.Valid() && |index.hash| == |entry| && 0 < |entry| && |entry| % BLOCK == 0
      && FreeChain(entry, free, firstFree) && Partition(|entry|, live, free, taken)
      && index.Indexed() == live
      && (forall i :: i in free ==> index.Pristine(i))
    }

    /** The directory tree, its paths and, except for the entries in `stale`, the hashes of these. */
    ghost predicate Tree(stale: set<nat>)
      reads this, index
    {
      WellNamed(entry, index.hash, dirs, path, stale)
    }

    ghost predicate Valid()
      reads this, index
    {
      Arena(Live(), {}) && Tree({})
    }

    ghost function Now(): Snapshot
      reads this, index
    {
      Snapshot(entry, path, index.hash, index.node, index.cnext, index.cprev, index.root)
    }

    /** Formats the first block: entry 1 is the root directory, the others are free. */
    constructor ()
      ensures Valid() && fresh(index) && Live() == {ROOT} && path == map[ROOT := "/"]
      ensures |entry| == BLOCK && entry[ROOT] == Entry("/", 0, NotFetched, 0, Directory)
    {
      hide Index.Valid, Index.Indexed, Index.Pristine, WellNamed, Partition, FreeChain, DoHash, BlockIds;
      index := new Index(BLOCK, DoHash("/"));
      entry := [Blank(0), Entry("/", 0, NotFetched, 0, Directory)];
      firstFree := 2;
      dirs := Cons(ROOT, Nil, Nil);
      free := BlockIds(2, BLOCK);
      path := map[ROOT := "/"];
      new;
      ExtendFreeEntries(2, BLOCK);
      FreeBlock(entry, 2, BLOCK);
      FirstBlock(entry, index.hash);
    }

    method ExtendFreeEntries(first: nat, last: nat)
      requires first == |entry| && first <= last
      modifies this`entry
      ensures |entry| == last && old(entry) <= entry
      ensures forall i :: first <= i < last ==> entry[i] == Blank(if i < last - 1 then i + 1 else 0)
    {
      for nfree := first to last
        invariant |entry| == nfree && old(entry) <= entry
        invariant forall i :: first <= i < nfree ==> entry[i] == Blank(if i < last - 1 then i + 1 else 0)
      {
        entry := entry + [Blank(if nfree < last - 1 then nfree + 1 else 0)];
      }
    }

    /** Formats one more block and makes it the free list. */
    method Grow(ghost live: set<nat>)
      requires Arena(live, {}) && firstFree == 0
      modifies this`entry, this`firstFree, this`free, index
      ensures Arena(live, {}) && firstFree != 0
      ensures old(entry) <= entry && old(index.hash) <= index.hash
    {
      hide Index.Valid, Index.Indexed, BlockIds;
      FreeFirst(entry, live, free, {}, firstFree);
      var first := |entry|;
      var last := first + BLOCK;
      index.Extend(BLOCK);
      ExtendFreeEntries(first, last);
      firstFree := first;
      free := BlockIds(first, last);
      FreeBlock(entry, first, last);
      PartitionGrown(first, last, live, {}, free);
    }

    /** Takes an entry off the free list, formatting a new block if the list is empty. */
    method Allocate(ghost live: set<nat>) returns (id: nat)
      requires Arena(live, {})
      modifies this`entry, this`firstFree, this`free, index
      ensures Arena(live, {id}) && id !in live && 0 < id < |entry| && entry[id] == Blank(entry[id].next)
      ensures old(entry) <= entry && old(index.hash) <= index.hash && index.Pristine(id)
    {
      hide Index.Valid, Index.Indexed;
      if firstFree == 0 {
        Grow(live);
      }
      FreeFirst(entry, live, free, {}, firstFree);
      id := firstFree;
      firstFree := entry[id].next;
      Popped(|entry|, live, free, {});
      free := free[1..];
    }

    /** Wipes an entry and puts it on the free list. */
    method Remove(id: nat, ghost live: set<nat>, ghost taken: set<nat>)
      requires Arena(live, taken) && id in taken
      modifies this`entry, this`firstFree, this`free, index
      ensures Arena(live, taken - {id}) && 0 < id < |entry|
      ensures entry == old(entry)[id := Blank(old(firstFree))] && firstFree == id && free == [id] + old(free)
      ensures index.hash == old(index.hash)[id := 0]
    {
      assert !index.Member(id) by { assert id !in index.Indexed(); }
      ClearEntry(id);
      Pushed(entry, entry[id := Blank(firstFree)], live, free, taken, firstFree, id);
      entry := entry[id := Blank(firstFree)];
      firstFree := id;
      free := [id] + free;
    }

    /** Wipes the index fields of an entry. */
    method ClearEntry(id: nat)
      requires index.Valid() && 0 < id < |index.hash| && !index.Member(id)
      modifies index
      ensures index.Valid() && index.Pristine(id) && index.Indexed() == old(index.Indexed())
      ensures index.hash == old(index.hash)[id := 0]
      ensures forall i :: i != id && old(index.Pristine(i)) ==> index.Pristine(i)
    {
      index.Clear(id);
      forall i | i != id && old(index.Pristine(i))
        ensures index.Pristine(i)
      {
        assert index.Member(i) <==> i in index.Indexed();
      }
    }

    // ---------------------------------------------------------------- lookup

    /** The tree and its paths, whatever the hashes say. */
    ghost predicate Named()
      reads this
    {
      Rooted(entry, dirs) && PathsOk(entry, Live(), path)
    }

    /** Compares the path of an entry with a query, of which `size` characters count. */
    method Equals(id: nat, q: string, size: int) returns (r: Match)
      requires Named() && id in Live() && q != ""
      ensures path[id] != "" && r == CompareEntry(id, path[id], q, size)
    {
      if q == "/" {
        return if id == ROOT then Yes else No;
      }
      var namestack, current := [], id;
      while entry[current].father != 0
        invariant current in Live() && current < |entry| && (namestack == [] ==> current == id)
        invariant Prefix(path[id]) == Prefix(path[current]) + Spelt(namestack)
        invariant |namestack| < MAX_LEVELS && |namestack| + Levels(path[current]) == Levels(path[id])
        invariant forall n :: n in namestack ==> ValidName(n)
        decreases |path[current]|
      {
        ClimbStep(entry, dirs, path, id, current, namestack);
        namestack := namestack + [entry[current].name];
        if |namestack| == MAX_LEVELS { return Crash; }
        current := entry[current].father;
      }
      Climbing(entry, dirs, path, id, current, namestack);
      if namestack == [] { return Crash; }
      r := CompareNames(namestack, q, size);
    }

    /** Compares the entries of one chain of collisions with the query, in their order. */
    method WalkChain(head: nat, h: nat, q: string, size: int, ghost chain: seq<nat>) returns (r: Lookup)
      requires Named() && q != "" && chain != [] && chain[0] == head && Threaded(index.cnext, chain)
      requires forall i :: i in chain ==> i in Live() && Hashed(index.hash, h, i)
      ensures r.Found? ==> r.id in chain && Candidate(index.hash, path, h, q, size, r.id, Yes)
      ensures r.Missing? ==> NoneUpTo(index.hash, path, h, q, size, chain, |chain|)
      ensures r.Aborted? ==> exists i :: i in Live() && Candidate(index.hash, path, h, q, size, i, Crash)
      ensures r == Scan(path, q, size, chain)
    {
      var current := head;
      ghost var k := 0;
      assert chain[0..] == chain;
      while current != 0
        invariant 0 <= k <= |chain| && current == if k < |chain| then chain[k] else 0
        invariant NoneUpTo(index.hash, path, h, q, size, chain, k)
        invariant Scan(path, q, size, chain) == Scan(path, q, size, chain[k..])
        decreases |chain| - k
      {
        assert chain[k..][1..] == chain[k + 1..];
        assert chain[k] in chain;
        var m := Equals(current, q, size);
        assert Candidate(index.hash, path, h, q, size, current, m);
        if m.Yes? { return Found(current); }
        if m.Crash? { return Aborted; }
        Passed(index.hash, path, h, q, size, chain, k);
        current := index.cnext[current];
        k := k + 1;
      }
      r := Missing;
    }

    /** Looks for an entry with hash `h` that compares equal to the query: one way down the tree,
        then along one chain of collisions. `steps` counts the tree nodes looked at. */
    method FindHash(q: string, h: nat, size: int) returns (r: Lookup, ghost steps: nat)
      requires index.Valid() && index.Indexed() == Live() && |index.hash| == |entry| && Named() && q != ""
      ensures r.Found? ==> r.id in Live() && Candidate(index.hash, path, h, q, size, r.id, Yes)
      ensures r.Missing? ==> forall i :: i in Live() && Hashed(index.hash, h, i) ==> Candidate(index.hash, path, h, q, size, i, No)
      ensures r.Aborted? ==> exists i :: i in Live() && Candidate(index.hash, path, h, q, size, i, Crash)
      ensures r == Scan(path, q, size, index.Chain(h))
      ensures Pow2((steps + 1) / 2) <= |Live()| + 1
    {
      var current;
      ghost var c, t;
      current, c, t, steps := index.SearchTree(h);
      Shallow(index, steps);
      if index.hash[current] != h {
        NoneHashed(index, h);
        return Missing, steps;
      }
      ChainHashed(index, h, current);
      ghost var chain := index.chains[h];
      r := WalkChain(current, h, q, size, chain);
    }

    lemma ChainPaths(h: nat)
      requires Valid()
      ensures forall i :: i in index.Chain(h) ==> i in path && path[i] != "" && path[i][0] == '/'
    {
      hide Index.Valid, Index.Indexed, FreeChain, Partition, HashesOk, KindsOk, Rooted;
      ChainListed(index, h);
      forall i | i in Live()
        ensures i in path && path[i] != "" && path[i][0] == '/'
      {
        PathLength(entry, Live(), path, i);
      }
    }

    /** The first entry of the chain of its hash that is at `q` or trips over it does the latter. */
    ghost predicate Trapped(q: string)
      reads this, index
    {
      q != "/" && TripsFirst(path, q, index.Chain(DoHash(q)))
    }

    /** Looks up a full path. It aborts exactly if the first entry of the chain of its hash that has
        this path or trips over it does the latter. */
    method FindIndexed(q: string) returns (r: Lookup)
      requires Valid() && q != "" && q[0] == '/'
      ensures r.Found? ==> r.id in Live() && path[r.id] == q
      ensures r.Missing? ==> q !in path.Values
      ensures r.Aborted? ==> Confusing(path, q)
      ensures (r.Aborted? <==> Trapped(q)) && (q == "/" ==> r.Found?)
    {
      hide Index.Valid, Index.Indexed, Index.Pristine, Rooted, PathOk, SameName, DoHash, FreeChain, Partition,
           TripsFirst, Confusing, Scan, KindsOk, Candidate;
      if q == "/" { return Found(ROOT); }
      ghost var steps;
      r, steps := FindHash(q, DoHash(q), |q|);
      ChainPaths(DoHash(q));
      ScanAborts(path, q, index.Chain(DoHash(q)));
      FullLookup(entry, Live(), path, index.hash, q, r);
    }

    // ---------------------------------------------------------------- linking

    /** The hash of a name in a directory, from the hash of the directory. */
    function HashIn(father: nat, name: string): nat
      requires father < |entry| && father < |index.hash|
      reads this, index
    {
      Hash(if entry[father].father != 0 then Hash(index.hash[father], "/") else index.hash[father], name)
    }

    /** The hash of an entry, from the hash of its directory. */
    function BuildHash(father: nat, id: nat): nat
      requires father < |entry| && father < |index.hash| && id < |entry|
      reads this, index
    {
      HashIn(father, entry[id].name)
    }

    /** Gives an entry the hash of its path and indexes it. */
    method BuildAndInsert(father: nat, id: nat, ghost live: set<nat>) returns (clean: bool)
      requires Arena(live, {id}) && father in live
      modifies index
      ensures father < |entry| && id < |entry| == |old(index.hash)|
      ensures index.Indexing(live + {id}) == clean == old(index.InsertableAs(id, BuildHash(father, id)))
      ensures clean ==> Arena(live + {id}, {})
      ensures index.hash == old(index.hash)[id := old(BuildHash(father, id))]
    {
      Entered(|entry|, live, free, id);
      assert !index.Member(id) by { assert id !in index.Indexed(); }
      clean := index.EnterAs(id, BuildHash(father, id));
    }

    /** Taking the entry out of the index keeps the index well-formed. */
    predicate Removable(id: nat)
      reads index
    {
      id < |index.cprev| && id < |index.cnext| && index.Removable(id)
    }

    /** Takes an entry out of the index. The index is well-formed without it exactly if it was
        removable. */
    method LeaveIndex(id: nat, ghost live: set<nat>, ghost taken: set<nat>) returns (r: Outcome)
      requires Arena(live, taken) && id in live
      modifies index
      ensures r.Done? || r.Breaks? || r.Corrupts?
      ensures r.Done? <==> old(Removable(id))
      ensures r.Breaks? <==> id < |old(index.cprev)| && id < |old(index.cnext)| && old(index.Aborting(id))
      ensures r.Done? ==> Arena(live - {id}, taken + {id}) && index.hash == old(index.hash)
      ensures Harms(r) ==> !index.Indexing(live - {id})
      ensures index.OwnLinks(id)
    {
      hide FreeChain, Index.Valid, Index.Removable, Index.Aborting;
      assert index.Member(id) by { assert id in index.Indexed(); }
      var removable := Removable(id);
      var bug := index.Leave(id);
      r := if bug then Breaks else if removable then Done else Corrupts;
    }

    /** Makes an entry the first child of a directory. */
    method LinkEntry(father: nat, id: nat)
      requires father < |entry| && id < |entry| && father != id
      modifies this`entry
      ensures LinkWrites(old(entry), entry, father, id) && entry[id].name == old(entry)[id].name
    {
      entry := entry[id := entry[id].(father := father)];
      if entry[father].child.First? {
        entry := entry[id := entry[id].(next := entry[father].child.id)];
      } else {
        entry := entry[id := entry[id].(next := 0)];
      }
      entry := entry[father := entry[father].(child := First(id))];
    }

    /** Takes an entry out of the list of children of its directory. */
    method UnlinkEntry(id: nat) returns (ghost c: Spot, ghost f: Forest)
      requires Rooted(entry, dirs) && id in Live() && id != ROOT
      modifies this`entry
      ensures f.Cons? && f.id == id && At(old(entry), c, f, id) && Fill(c, f) == dirs && RootAt(c, id) == ROOT
      ensures UnlinkWrites(old(entry), entry, c, id) && c.id in Live()
    {
      ghost var c0, f0 := Find(entry, dirs, id);
      c, f := ChildrenFrom(entry, c0, f0);
      AtDown(entry, c, f);
      FillIds(c, f);
      var father := entry[id].father;
      if entry[father].child == First(id) {
        entry := entry[father := entry[father].(child := if entry[id].next != 0 then First(entry[id].next) else Empty)];
        return;
      }
      var next := entry[father].child.id;
      while entry[next].next != 0
        invariant f.Cons? && f.id == next && At(entry, c, f, next) && Fill(c, f) == dirs && RootAt(c, next) == ROOT
        invariant next != id && id in Siblings(f) && 0 < next < |entry| && entry == old(entry)
        decreases f
      {
        AtDown(entry, c, f);
        FillIds(c, f);
        c, f := InRest(c, f.id, f.kids), f.rest;
        if entry[next].next == id {
          entry := entry[next := entry[next].(next := entry[id].next)];
          return;
        }
        next := entry[next].next;
      }
      AtDown(entry, c, f);
      assert false;
    }

    /** Takes a free entry and gives it a name and a kind. */
    method NewEntry(name: string, kind: Kind) returns (id: nat)
      requires Valid()
      modifies this`entry, this`firstFree, this`free, index
      ensures Arena(Live(), {id}) && Tree({}) && index.Pristine(id) && id !in Live() && id < |entry|
      ensures entry[id].name == name && entry[id].kind == kind && entry[id].child.NotFetched?
      ensures |old(entry)| <= |entry| && forall i :: i in Live() ==> i < |old(entry)| && entry[i] == old(entry)[i]
    {
      hide Index.Valid, Index.Indexed;
      id := Allocate(Live());
      TreeFrame(old(entry), entry, old(index.hash), index.hash, dirs, path, {});
      NameEntry(id, name, kind, {id});
    }

    method NameEntry(id: nat, name: string, kind: Kind, ghost taken: set<nat>)
      requires Arena(Live(), taken) && Tree({}) && id in taken && id < |entry|
      modifies this`entry
      ensures Arena(Live(), taken) && Tree({}) && entry == old(entry)[id := old(entry)[id].(name := name, kind := kind)]
    {
      hide Rooted, PathOk, SameName, Index.Valid, Index.Indexed;
      entry := entry[id := entry[id].(name := name, kind := kind)];
      FreeFrame(old(entry), entry, free, firstFree);
      TreeFrame(old(entry), entry, index.hash, index.hash, dirs, path, {});
    }

    /** Makes a new entry a child of a directory and indexes it. */
    method DoAddChild(father: nat, id: nat)
      requires Arena(Live(), {id}) && Tree({}) && index.Pristine(id) && father in Live() && id !in Live()
      requires father < |entry| && id < |entry| && entry[father].kind.Directory? && entry[id].child.NotFetched?
      requires ValidName(entry[id].name) && Join(path[father], entry[id].name) !in path.Values
      modifies this`entry, this`dirs, this`path, index
      ensures Valid() && Live() == old(Live()) + {id} && path == old(path)[id := Join(old(path)[father], old(entry)[id].name)]
      ensures LinkWrites(old(entry), entry, father, id) && entry[id].name == old(entry)[id].name
    {
      hide Rooted, FreeChain, Index.Valid, Index.Indexed, Index.Pristine, Index.Indexing, Index.InsertableAs, PathOk,
           SameName, Hash, Join, DoHash, All;
      NoStaleLinks(index, id, BuildHash(father, id));
      LinkEntry(father, id);
      LinkFree(old(entry), entry, free, firstFree, Live(), father, id);
      var clean := BuildAndInsert(father, id, Live());
      dirs := AttachedHashed(old(entry), old(entry), entry, old(index.hash), index.hash, dirs, path, father, id);
      path := path[id := Join(path[father], entry[id].name)];
    }

    // ---------------------------------------------------------------- making and removing entries

    /** Makes a new entry in a directory, where no entry has its name yet. */
    method AddEntry(father: nat, name: string, kind: Kind) returns (id: nat)
      requires Valid() && father in Live() && father < |entry| && entry[father].kind.Directory?
      requires ValidName(name) && Join(path[father], name) !in path.Values
      modifies this`entry, this`firstFree, this`free, this`dirs, this`path, index
      ensures Valid() && id !in old(Live()) && Live() == old(Live()) + {id}
      ensures path == old(path)[id := Join(old(path)[father], name)] && id < |entry| && OthersStand(old(Now()), entry, father)
      ensures entry[father] == old(entry)[father].(child := First(id))
      ensures entry[id].name == name && entry[id].kind == kind && entry[id].father == father && entry[father].kind.Directory?
      ensures entry[id].child == if kind.Directory? then Empty else NotFetched
    {
      hide Index.Valid, Index.Indexed, Rooted, PathOk, SameName, Hash, DoHash, Join, FreeChain, All, HashesOk;
      id := NewEntry(name, kind);
      PlaceEntry(father, id);
    }

    /** Links a new entry into its directory; one that is a directory itself is empty. */
    method LinkNew(father: nat, id: nat, ghost live: set<nat>) returns (ghost m: seq<Entry>)
      requires Arena(live + {id}, {}) && id !in live && father in live && father < |entry| && id < |entry|
      requires entry[id].child.NotFetched?
      modifies this`entry
      ensures Arena(live + {id}, {}) && LinkWrites(m, entry, father, id)
      ensures m == old(entry)[id := old(entry)[id].(child := if old(entry)[id].kind.Directory? then Empty else NotFetched)]
      ensures entry[id].name == old(entry)[id].name
    {
      hide Index.Valid, Index.Indexed, Index.Pristine, FreeChain;
      if entry[id].kind.Directory? {
        entry := entry[id := entry[id].(child := Empty)];
      }
      m := entry;
      LinkEntry(father, id);
      FreeFrame(old(entry), entry, free, firstFree);
    }

    /** Indexes a new entry and links it into its directory. */
    method PlaceEntry(father: nat, id: nat)
      requires Arena(Live(), {id}) && Tree({}) && index.Pristine(id) && father in Live() && id !in Live()
      requires father < |entry| && id < |entry| && entry[father].kind.Directory? && entry[id].child.NotFetched?
      requires ValidName(entry[id].name) && Join(path[father], entry[id].name) !in path.Values
      modifies this`entry, this`dirs, this`path, index
      ensures Valid() && Live() == old(Live()) + {id} && path == old(path)[id := Join(old(path)[father], old(entry)[id].name)]
      ensures |entry| == |old(entry)| && entry[id].father == father && entry[father].kind.Directory?
      ensures OthersStand(old(Now()), entry, father) && entry[father] == old(entry)[father].(child := First(id))
      ensures entry[id].name == old(entry)[id].name && entry[id].kind == old(entry)[id].kind
      ensures entry[id].child == if entry[id].kind.Directory? then Empty else NotFetched
    {
      hide Index.Valid, Index.Indexed, Index.Pristine, Index.Indexing, Index.InsertableAs, Rooted, PathOk, SameName,
           Hash, DoHash, Join, FreeChain, All, HashesOk, Disjoint, ValidName;
      NoStaleLinks(index, id, BuildHash(father, id));
      var clean := BuildAndInsert(father, id, Live());
      ghost var m := LinkNew(father, id, Live());
      dirs := AttachedHashed(old(entry), m, entry, old(index.hash), index.hash, dirs, path, father, id);
      path := path[id := Join(path[father], entry[id].name)];
    }

    /** Unlinks an entry without children, takes it out of the index and frees it. */
    method DropEntry(id: nat) returns (r: Outcome)
      requires Valid() && id in Live() && id != ROOT && id < |entry| && !entry[id].child.First?
      modifies this`entry, this`firstFree, this`free, this`dirs, this`path, index
      ensures r.Done? || Harms(r)
      ensures r.Done? <==> old(Removable(id))
      ensures Harms(r) ==> !index.Indexing(old(Live()) - {id})
      ensures r.Done? ==> Valid() && Live() == old(Live()) - {id} && path == old(path) - {id}
      ensures r.Done? ==> firstFree == id && free == [id] + old(free)
      ensures r.Done? ==> StayPut(old(entry), entry, old(Live()) - {id}, 0)
    {
      hide Index.Valid, Index.Indexed, Index.Removable, Index.Pristine, Index.Indexing, Rooted, PathOk, SameName,
           DoHash, FreeChain, All, HashesOk, KindsOk, PathsOk, StayPut, At, UnlinkWrites;
      InArena();
      ghost var c, f;
      r, c, f := DetachEntry(id);
      if !r.Done? { return; }
      ghost var m := entry;
      UnlinkStays(old(entry), m, c, f, Live());
      Remove(id, Live() - {id}, {id});
      WipedStays(old(entry), m, id, Blank(old(firstFree)), Live());
      dirs := DetachedHashed(old(entry), m, old(index.hash), dirs, path, c, f, old(firstFree));
      path := path - {id};
    }

    /** Marks a directory without children as empty. */
    method MarkEmpty(father: nat)
      requires Valid() && father in Live() && father < |entry| && entry[father].kind.Directory? && !entry[father].child.First?
      modifies this`entry
      ensures Valid() && entry == old(entry)[father := old(entry)[father].(child := Empty)]
    {
      hide Index.Valid, Index.Indexed, Index.Pristine, Rooted, PathOk, SameName, DoHash;
      entry := entry[father := entry[father].(child := Empty)];
      Emptied(old(entry), entry, index.hash, dirs, path, {}, father);
      FreeFrame(old(entry), entry, free, firstFree);
    }

    /** Takes over one item of a listing. */
    method AddListed(father: nat, listing: seq<Item>, k: nat, ghost m0: seq<Entry>, ghost live0: set<nat>, ghost ids: seq<nat>)
      returns (newid: nat)
      requires Valid() && father in Live() && father < |m0| && m0[father].kind.Directory? && Readable(listing)
      requires k < |listing| && !Skipped(listing[k].name, father == ROOT)
      requires Fetched(m0, live0, entry, Live(), father, Kept(listing[..k], father == ROOT), ids)
      requires forall i :: i in live0 ==> i < |m0| && m0[i].father != father
      modifies this`entry, this`firstFree, this`free, this`dirs, this`path, index
      ensures Valid() && Extends(old(path), path) && |old(entry)| <= |entry|
      ensures Fetched(m0, live0, entry, Live(), father, Kept(listing[..k + 1], father == ROOT), ids + [newid])
    {
      hide Index.Valid, Index.Indexed, Index.Pristine, Rooted, PathOk, SameName, DoHash, Hash, Join, FreeChain, All,
           HashesOk, KindsOk;
      ListedFresh(m0, live0, entry, Live(), path, father, listing, k, ids);
      newid := NewEntry(listing[k].name, listing[k].kind);
      ghost var m1 := entry;
      DoAddChild(father, newid);
      KeptNext(listing, k, father == ROOT);
      FetchedMore(m0, live0, old(entry), m1, entry, old(Live()), father, Kept(listing[..k], father == ROOT), listing[k], ids, newid);
    }

    /** Takes over a whole listing. */
    method AddAllListed(father: nat, listing: seq<Item>) returns (ghost ids: seq<nat>)
      requires Valid() && father in Live() && Unread(entry, father) && Readable(listing)
      modifies this`entry, this`firstFree, this`free, this`dirs, this`path, index
      ensures Valid() && Extends(old(path), path) && |old(entry)| <= |entry|
      ensures Fetched(old(entry), old(Live()), entry, Live(), father, Kept(listing, father == ROOT), ids)
    {
      hide Index.Valid, Index.Indexed, Index.Pristine, Rooted, PathOk, SameName, DoHash, FreeChain, All, HashesOk,
           KindsOk;
      ids := [];
      NoChildren(entry, dirs, father);
      assert listing[..0] == [];
      for k := 0 to |listing|
        invariant Valid() && Extends(old(path), path) && |old(entry)| <= |entry|
        invariant Fetched(old(entry), old(Live()), entry, Live(), father, Kept(listing[..k], father == ROOT), ids)
      {
        KeptNext(listing, k, father == ROOT);
        if Skipped(listing[k].name, father == ROOT) { continue; }
        var newid := AddListed(father, listing, k, old(entry), old(Live()), ids);
        ids := ids + [newid];
      }
      assert listing[..|listing|] == listing;
    }

    /** The path under which the source's directory is opened: one name after the other, from the root on. */
    method OpenPath(id: nat) returns (p: string)
      requires Named() && id in Live()
      ensures p == path[id]
      decreases |path[id]|
    {
      hide Rooted;
      PathLength(entry, Live(), path, id);
      ghost var c, f := Find(entry, dirs, id);
      if entry[id].father == 0 { return "/"; }
      assert PathOk(entry, path, id);
      p := OpenPath(entry[id].father);
      p := Join(p, entry[id].name);
    }

    /** Takes over what a directory holds; one that holds nothing is marked as empty. */
    method ReadDirectory(father: nat, listing: seq<Item>) returns (ghost ids: seq<nat>)
      requires Valid() && father in Live() && Unread(entry, father) && Readable(listing)
      modifies this`entry, this`firstFree, this`free, this`dirs, this`path, index
      ensures Valid() && Extends(old(path), path) && |old(entry)| <= |entry| && father < |entry| && !entry[father].child.NotFetched?
      ensures Fetched(old(entry), old(Live()), entry, Live(), father, Kept(listing, father == ROOT), ids)
    {
      hide Fetched, Index.Valid, Index.Indexed, Index.Pristine, Rooted, PathOk, SameName, DoHash, FreeChain, All, HashesOk,
           KindsOk, Partition, Disjoint, Skipped;
      ids := AddAllListed(father, listing);
      FetchedFacts(old(entry), old(Live()), entry, Live(), father, Kept(listing, father == ROOT), ids);
      if entry[father].child.NotFetched? {
        FetchedEmpty(old(entry), old(Live()), entry, Live(), father, Kept(listing, father == ROOT), ids);
        MarkEmpty(father);
      }
    }

    /** Reads the children of a directory from the source, unless it was read before, or cannot be opened. */
    method GetChild(father: nat, disk: Disk)
      requires Valid() && father in Live() && father < |entry| && Mounted(disk)
      modifies this`entry, this`firstFree, this`free, this`dirs, this`path, index
      ensures Valid() && Grew(old(Now()), Now(), disk) && father in Live() && father < |entry|
      ensures !old(ToRead(Now(), disk, father)) ==> Now() == old(Now()) && dirs == old(dirs)
      ensures !ToRead(Now(), disk, father)
      ensures forall i :: WasRead(old(Now()), Now(), i) ==> i == father
      ensures old(ToRead(Now(), disk, father)) ==>
                WasRead(old(Now()), Now(), father) &&
                forall i :: i in path && i !in old(path) ==> i < |entry| && entry[i].father == father && entry[i].child.NotFetched?
      ensures old(ToRead(Now(), disk, father)) ==>
                forall e :: e in disk[path[father]] ==>
                  (Join(path[father], e.name) in path.Values <==>
                   e.name != "." && e.name != ".." && !(father == ROOT && e.name == ".mcachefs"))
      ensures old(ToRead(Now(), disk, father)) ==>
                forall e, i :: e in disk[path[father]] && i in path && path[i] == Join(path[father], e.name) ==>
                  i < |entry| && entry[i].kind == e.kind
    {
      hide Fetched, Index.Valid, Index.Indexed, Index.Pristine, Rooted, PathOk, SameName, DoHash, FreeChain, All, HashesOk,
           KindsOk, Partition, Kept, Readable, Grew, Join;
      InArena();
      GrewNot(Now(), disk);
      if !entry[father].child.NotFetched? || !entry[father].kind.Directory? { return; }
      var p := OpenPath(father);
      if p !in disk { return; }
      NoChildren(entry, dirs, father);
      ghost var ids := ReadDirectory(father, disk[p]);
      GrewByOne(old(Now()), Now(), disk, father, ids);
      NamesRead(old(Now()), Now(), disk, father);
    }

    lemma InArena()
      requires Valid()
      ensures Named() && path.Keys == Live() && ROOT in Live() && forall i :: i in path ==> 0 < i < |entry|
    {
    }

    /** Looks for a name among the children of a directory, by hash and by the beginning of their names. */
    method FindChild(father: nat, name: string) returns (r: Lookup)
      requires Valid() && father in Live() && father < |entry|
      ensures !r.Aborted?
      ensures r.Found? ==> r.id in Live() && Walked(entry, index.hash, father, name, r.id)
      ensures r.Missing? ==> forall i :: i in Live() ==> !Walked(entry, index.hash, father, name, i)
    {
      hide Index.Valid, Index.Indexed, Index.Pristine, PathOk, SameName, PathsOk, HashesOk, KindsOk, DoHash, Hash,
           FreeChain, Partition, Disjoint, SpotDisjoint, SpotLists, Lists;
      ghost var c0, f0 := ChildList(entry, dirs, father);
      AtDown(entry, c0, f0);
      if !entry[father].child.First? { return Missing; }
      ListsIds(entry, f0.kids, FirstId(entry[father].child), father);
      ghost var c, f := InKids(c0, father, f0.rest), f0.kids;
      var h := Hash(Hash(index.hash[father], "/"), name);
      var child := entry[father].child.id;
      while child != 0
        invariant At(entry, c, f, child) && (f.Cons? <==> child != 0) && (f.Cons? ==> f.id == child) && Fill(c, f) == dirs
        invariant forall i :: i in Siblings(f0.kids) ==> i in Siblings(f) || !Walked(entry, index.hash, father, name, i)
        decreases f
      {
        AtDown(entry, c, f);
        FillIds(c, f);
        if index.hash[child] == h && name <= entry[child].name && entry[child].father == father { return Found(child); }
        c, f := InRest(c, f.id, f.kids), f.rest;
        child := entry[child].next;
      }
      r := Missing;
    }

    /** The directory at `d`, which `q` goes through: what has its hash, and compares with that part of `q`. */
    method FindPart(q: string, d: string) returns (r: Lookup)
      requires Valid() && IsBelow(d, q) && |d| > 1 && d[0] == '/'
      ensures r.Found? ==> r.id in Live() && (path[r.id] == d || Confusing(path, d))
      ensures r.Missing? ==> d !in path.Values
      ensures r.Aborted? ==> Confusing(path, d)
    {
      hide Index.Valid, Index.Indexed, Index.Pristine, Rooted, DoHash, FreeChain, HashesOk, KindsOk, PathOk,
           SameName, Confusing, Candidate, Scan;
      ghost var steps;
      r, steps := FindHash(q, DoHash(d), |d|);
      PartialLookup(entry, Live(), path, index.hash, q, d, r);
    }

    /** Whether an entry is the one looked for. mcachefs does not ask: this is where the model ends when
        it should have. */
    method Meant(id: nat, d: string) returns (yes: bool)
      requires Valid() && id in Live() && d != "" && d[0] == '/'
      ensures yes ==> path[id] == d
      ensures !yes && path[id] == d ==> Confusing(path, d)
    {
      hide Index.Valid, Index.Indexed, FreeChain, Partition, HashesOk, KindsOk, DoHash;
      PathLength(entry, Live(), path, id);
      ComparedInFull(id, path[id], d);
      var m := Equals(id, d, |d|);
      yes := m.Yes?;
    }

    /** The last directory on the way to `q` that is there, and where `q` is cut there. */
    method SemiLookup(q: string) returns (r: Lookup, size: nat)
      requires Valid() && Absolute(q) && q != "/"
      ensures !r.Missing? && (r.Aborted? ==> Troubled(path, q))
      ensures r.Found? ==> r.id in Live() && SplitsAt(q, size, path[r.id]) && NoneDeeper(path, q, size)
      ensures TopLevel(q) ==> r == Found(ROOT)
    {
      hide Store.Valid, Confusing, Troubled, NoneDeeper, Absolute, Prefix;
      RootSplits(q);
      size := |q|;
      assert NoneDeeper(path, q, size) by { Deepest(path, q); }
      while true
        invariant size <= |q| && NoneDeeper(path, q, size)
        decreases size
      {
        while size > 0 && (size == |q| || q[size] != '/')
          invariant size <= |q| && NoneDeeper(path, q, size)
        {
          LessDeep(path, q, size);
          size := size - 1;
        }
        if size <= 1 { return Found(ROOT), size; }
        PartOf(path, q, size);
        r := FindPart(q, q[..size]);
        if r.Found? {
          var meant := Meant(r.id, q[..size]);
          if !meant { r := Aborted; }
        }
        if !r.Missing? { return; }
        LessDeep(path, q, size);
        size := size - 1;
      }
    }

    lemma RootSplits(q: string)
      requires Valid() && Absolute(q) && q != "/"
      ensures ROOT in Live() && q != "" && q[0] == '/' && (|q| > 1 ==> q[1] != '/') && SplitsAt(q, 0, path[ROOT])
    {
    }

    /** Looks for the next name of `q` among the children of a directory: what comes after `at`, up to `end`. */
    method FindNext(father: nat, q: string, at: nat, end: nat, ghost later: bool) returns (r: Lookup)
      requires Valid() && father in Live() && father < |entry| && Absolute(q) && q != "/"
      requires at < end <= |q| && (end == |q| || q[end] == '/') && '/' !in q[at + 1..end]
      requires if later then at > 0 && father != ROOT && SplitsAt(q, at - 1, path[father]) else SplitsAt(q, at, path[father])
      ensures r.Found? ==> r.id in Live() && r.id != ROOT && path[r.id] == q[..end] && (later || father == ROOT ==> Troubled(path, q))
      ensures r.Missing? && !later && father != ROOT ==> q[..end] !in path.Values
      ensures r.Aborted? ==> Troubled(path, q) && (father == ROOT ==> Misled(path, q[..end]))
    {
      hide Index.Valid, Index.Indexed, Index.Pristine, DoHash, Hash, FreeChain, Partition, KindsOk, PathOk, SameName,
           Walked, Confusing, Misled, Levels, Rooted, Disjoint, Absolute, ValidName, HashesOk, Clipped, SplitsAt;
      ghost var name := q[at + 1..end];
      QueryPart(q, end);
      PathLength(entry, Live(), path, father);
      if !later { NextName(q, at, path[father], end); }
      r := FindChild(father, q[at + 1..end]);
      if r.Found? {
        WalkFound(entry, dirs, path, index.hash, father, name, r.id);
        if later { LetterLeftOut(path, father, q, at, end, r.id); }
        var meant := Meant(r.id, q[..end]);
        assert !meant || later || father == ROOT ==> Astray(path, q[..end]);
        if !meant { r := Aborted; }
      } else if !later && father != ROOT {
        NoneWalked(entry, Live(), dirs, path, index.hash, father, name);
      }
    }

    /** Walks from a directory down to the next name of `q`, which may need reading the directory. `at` is
        the slash before the name, or, `later` on, the letter after that. */
    method StepDown(current: nat, q: string, at: nat, disk: Disk, ghost later: bool) returns (r: Lookup, end: nat)
      requires Valid() && current in Live() && Absolute(q) && q != "/" && Mounted(disk) && at < |q|
      requires if later then at > 0 && current != ROOT && SplitsAt(q, at - 1, path[current]) else SplitsAt(q, at, path[current])
      modifies this`entry, this`firstFree, this`free, this`dirs, this`path, index
      ensures Valid() && Grew(old(Now()), Now(), disk) && current in Live() && !ToRead(Now(), disk, current)
      ensures forall i :: WasRead(old(Now()), Now(), i) ==> i == current
      ensures !old(ToRead(Now(), disk, current)) ==> Now() == old(Now())
      ensures at < end <= |q| && (end == |q| || q[end] == '/') && '/' !in q[at + 1..end]
      ensures r.Found? ==> r.id in Live() && r.id != ROOT && path[r.id] == q[..end] && (later || current == ROOT ==> Troubled(path, q))
      ensures r.Missing? && !later && current != ROOT ==> q[..end] !in path.Values
      ensures r.Aborted? ==> Troubled(path, q) && (current == ROOT ==> Misled(path, q[..end]))
    {
      hide Store.Valid, Grew, WasRead, Troubled, Mounted, Absolute, Prefix, ToRead, Misled;
      InArena();
      end := NameEnd(q, at + 1);
      if !later { SlashNext(q, at); }
      GetChild(current, disk);
      KindKept(old(Now()), Now(), disk, current);
      r := FindNext(current, q, at, end, later);
    }

    method Further(current: nat, q: string, at: nat, disk: Disk, ghost later: bool, ghost t0: Snapshot, ghost father: nat)
      returns (r: Lookup, end: nat)
      requires Valid() && Descending(t0, Now(), disk, q, father, current, at, later) && Absolute(q) && q != "/" && Mounted(disk)
      modifies this`entry, this`firstFree, this`free, this`dirs, this`path, index
      ensures Valid() && at < end <= |q|
      ensures if r.Found? && end < |q| then Descending(t0, Now(), disk, q, father, r.id, end + 1, true)
              else WalkEnd(t0, Now(), disk, q, r)
    {
      hide Store.Valid, Grew, WasRead, Troubled, Mounted, OnlyAbove, NoneDeeper, AllRead, ToRead, Absolute,
           Prefix, Above, Descending, WalkEnd;
      ghost var t := Now();
      InArena();
      Position(t0, t, disk, q, father, current, at, later);
      OnTheWayTo(current, q, if later then at - 1 else at);
      RootIsRead(current, disk);
      r, end := StepDown(current, q, at, disk, later);
      InArena();
      KindKept(t, Now(), disk, current);
      RootIsRead(current, disk);
      if r.Missing? && !later { EndedAt(q, at, end, current, disk); }
      Arrived(t0, t, Now(), disk, q, father, current, at, later, r, end);
    }

    lemma OnTheWayTo(id: nat, q: string, size: nat)
      requires Valid() && id in Live() && SplitsAt(q, size, path[id]) && q != "/"
      ensures Above(path[id], q) && path.Keys == Live()
    {
      PathLength(entry, Live(), path, id);
      SplitsAbove(q, size, path[id]);
    }

    /** Below a root directory that is still to be read there is nothing. */
    lemma RootIsRead(id: nat, disk: Disk)
      requires Valid() && id in Live()
      ensures id != ROOT ==> !ToRead(Now(), disk, ROOT)
      ensures path[id] != ""
    {
      hide Index.Valid, Index.Indexed, FreeChain, Partition, HashesOk, KindsOk;
      PathLength(entry, Live(), path, id);
      if ToRead(Now(), disk, ROOT) { LoneRoot(entry, dirs, path); }
    }

    /** Walks from a directory down to `q`, reading the directories on the way. After each level it goes one
        character too far: from the second name on the first letter is left out. */
    method WalkDown(father: nat, q: string, size: nat, disk: Disk) returns (r: Lookup)
      requires Valid() && father in Live() && Absolute(q) && q != "/" && SplitsAt(q, size, path[father]) && Mounted(disk)
      requires NoneDeeper(path, q, size) && q !in path.Values && (TopLevel(q) ==> father == ROOT)
      modifies this`entry, this`firstFree, this`free, this`dirs, this`path, index
      ensures Valid() && WalkEnd(old(Now()), Now(), disk, q, r)
    {
      hide Store.Valid, Grew, WasRead, Mounted, WalkEnd, Misses;
      InArena();
      GrewNot(Now(), disk);
      var current, at := father, size;
      ghost var later := false;
      assert Descending(old(Now()), Now(), disk, q, father, current, at, later);
      hide Descending;
      while true
        invariant Valid() && Descending(old(Now()), Now(), disk, q, father, current, at, later)
        decreases |q| - at
      {
        var end;
        r, end := Further(current, q, at, disk, later, old(Now()), father);
        if !r.Found? || end == |q| { return; }
        current, at, later := r.id, end + 1, true;
      }
    }

    /** Where a walk down has come to an end, all on the way has been read. */
    lemma EndedAt(q: string, size: nat, end: nat, father: nat, disk: Disk)
      requires Valid() && father in Live() && Absolute(q) && q != "/" && SplitsAt(q, size, path[father])
      requires size < end <= |q| && (end == |q| || q[end] == '/') && '/' !in q[size + 1..end]
      requires !ToRead(Now(), disk, father) && (father != ROOT ==> q[..end] !in path.Values)
      ensures !ToRead(Now(), disk, ROOT)
      ensures father != ROOT || (NoneDeeper(path, q, size) && q !in path.Values) ==> q !in path.Values && AllRead(Now(), disk, q)
    {
      hide Index.Valid, Index.Indexed, FreeChain, Partition, HashesOk, KindsOk, PathOk, SameName;
      if father != ROOT {
        NothingDeeper(entry, Live(), path, q, size, end);
        PathLength(entry, Live(), path, father);
        ReadAbove(entry, dirs, path, father, ROOT);
      }
      if NoneDeeper(path, q, size) { AllReadAt(Now(), dirs, disk, q, size, father); }
    }

    /** What is there is not missed. */
    lemma NotMissed(q: string, disk: Disk)
      requires Valid() && q in path.Values
      ensures !Misses(Now(), disk, q)
    {
      hide Index.Valid, Index.Indexed, FreeChain, Partition, FatherMissing, FatherNoDirectory;
      InArena();
      var i :| i in path && path[i] == q;
      RootIsRead(i, disk);
      if i == ROOT {
        NoFather(path);
      } else {
        InDirectory(entry, index.hash, dirs, path, i);
        RootOnly(i);
      }
    }

    /** Looks up a path: in the index, or else from the last directory on the way to it that is there,
        reading directories as it goes. What is found is at that path. If nothing is found there is
        nothing, as far as the source can be read, unless the lookup has to come through the root
        directory while that is read, or down more than one level: then nothing is found anyway. */
    method FindLocked(q: string, disk: Disk) returns (r: Lookup)
      requires Valid() && Absolute(q) && Mounted(disk)
      modifies this`entry, this`firstFree, this`free, this`dirs, this`path, index
      ensures Valid() && Grew(old(Now()), Now(), disk) && OnlyAbove(old(Now()), Now(), q)
      ensures q in old(path).Values ==> !r.Missing? && Now() == old(Now())
      ensures r.Found? ==> r.id in Live() && path[r.id] == q
      ensures q == "/" ==> r.Found?
      ensures !Troubled(path, q) ==> (r.Found? <==> q in path.Values && !old(Misses(Now(), disk, q)))
      ensures r.Found? && old(Misses(Now(), disk, q)) ==> Troubled(path, q)
      ensures r.Missing? && !old(Misses(Now(), disk, q)) ==> q !in path.Values
      ensures !r.Aborted? && !old(Misses(Now(), disk, q)) ==> AllRead(Now(), disk, q)
      ensures !r.Aborted? && q != "/" ==> !ToRead(Now(), disk, ROOT)
      ensures r.Aborted? ==> Troubled(path, q)
      ensures r.Aborted? && TopLevel(q) ==> old(Trapped(q)) || Misled(path, q)
      ensures r.Aborted? && q in old(path).Values ==> old(Trapped(q))
      ensures old(Trapped(q)) ==> r.Aborted?
    {
      hide Index.Valid, Index.Indexed, Index.Pristine, FreeChain, Partition, HashesOk, KindsOk, PathOk, SameName,
           Grew, Mounted, Confusing, Misled, Trapped, TopLevel, Misses;
      InArena();
      GrewNot(Now(), disk);
      if q in path.Values { NotMissed(q, disk); }
      r := FindIndexed(q);
      if r.Found? { AllReadThere(Now(), dirs, disk, r.id); }
      assert OnTheWay(q, q);
      if !r.Missing? { return; }
      var start, size := SemiLookup(q);
      if start.Aborted? { return Aborted; }
      r := WalkDown(start.id, q, size, disk);
      if r.Found? { AllReadThere(Now(), dirs, disk, r.id); }
    }

    // ---------------------------------------------------------------- making and removing entries

    /** Whether a directory holds a name. mcachefs does not ask before it creates one. */
    method Holds(father: nat, name: string) returns (yes: bool)
      requires Valid() && father in Live() && father < |entry| && ValidName(name)
      ensures yes <==> Join(path[father], name) in path.Values
    {
      hide Index.Valid, Index.Indexed, Index.Pristine, PathOk, SameName, PathsOk, HashesOk, KindsOk, DoHash,
           FreeChain, Partition, Disjoint, SpotDisjoint, SpotLists, Lists;
      ghost var c0, f0 := ChildList(entry, dirs, father);
      AtDown(entry, c0, f0);
      NamedChild(father, name);
      if !entry[father].child.First? { return false; }
      ListsIds(entry, f0.kids, FirstId(entry[father].child), father);
      ghost var c, f := InKids(c0, father, f0.rest), f0.kids;
      var child := entry[father].child.id;
      while child != 0
        invariant At(entry, c, f, child) && (f.Cons? <==> child != 0) && (f.Cons? ==> f.id == child) && Fill(c, f) == dirs
        invariant forall i :: i in Siblings(f0.kids) ==> i in Siblings(f) || (i < |entry| && entry[i].name != name)
        invariant forall i :: i in Siblings(f) ==> i in Siblings(f0.kids)
        decreases f
      {
        AtDown(entry, c, f);
        FillIds(c, f);
        if entry[child].name == name { return true; }
        c, f := InRest(c, f.id, f.kids), f.rest;
        child := entry[child].next;
      }
      yes := false;
    }

    lemma NamedChild(father: nat, name: string)
      requires Valid() && father in Live() && ValidName(name)
      ensures Join(path[father], name) in path.Values <==>
              exists i :: i in Live() && i < |entry| && entry[i].father == father && entry[i].name == name
    {
      hide Index.Valid, Index.Indexed, FreeChain, Partition, HashesOk, KindsOk, SameName, Rooted;
      ghost var c, f := Find(entry, dirs, ROOT);
      if i :| i in Live() && i < |entry| && entry[i].father == father && entry[i].name == name {
        assert PathOk(entry, path, i);
        assert path[i] in path.Values;
      } else {
        FreshPath(entry, Live(), path, father, name);
      }
    }

    lemma FatherFit(father: nat, q: string, name: string)
      requires Valid() && father in Live() && father < |entry| && ValidName(name) && q == Join(path[father], name)
      ensures !FatherMissing(path, q) && (FatherNoDirectory(entry, path, q) <==> !entry[father].kind.Directory?)
    {
      PathLength(entry, Live(), path, father);
      assert IsJoin(q, path[father], name);
      forall d, n | IsJoin(q, d, n)
        ensures d == path[father]
      {
        JoinInjective(path[father], name, d, n);
      }
      forall i | i in path && path[i] == path[father]
        ensures i == father
      {
        PathInjective(entry, Live(), path, i, father);
      }
    }

    lemma ReadBefore(t: Snapshot, disk: Disk, q: string)
      requires Valid() && Grew(t, Now(), disk) && OnlyAbove(t, Now(), q) && ROOT in t.path
      ensures AllRead(t, disk, q) ==> Now() == t
    {
      hide Grew, OnlyAbove, AllRead, Index.Valid, Index.Indexed, FreeChain, Partition;
      if AllRead(t, disk, q) { NothingReadAgain(t, Now(), disk, q); }
    }

    /** The lookups of `MakeEntry`: whether `q` is there, else its directory, which is read if it was
        not. */
    method FindFather(q: string, disk: Disk) returns (r: Outcome, father: nat, lname: string)
      requires Valid() && Absolute(q) && q != "/" && Mounted(disk)
      modifies this`entry, this`firstFree, this`free, this`dirs, this`path, index
      ensures Valid() && Grew(old(Now()), Now(), disk) && OnlyAbove(old(Now()), Now(), q)
      ensures r.Done? || r.Exists? || r.Aborts?
      ensures r.Exists? ==> q in path.Values && (q in old(path).Values ==> Now() == old(Now()))
      ensures r.Exists? && old(Misses(Now(), disk, q)) ==> Troubled(path, q)
      ensures r.Aborts? ==> Troubled(path, q) || FatherMissing(path, q) || Remote(old(path), q)
      ensures r.Done? ==> father in Live() && father < |entry| && ValidName(lname) && q == Join(path[father], lname)
      ensures r.Done? && q in path.Values ==> old(Misses(Now(), disk, q))
      ensures !r.Aborts? && !old(Misses(Now(), disk, q)) ==> AllRead(Now(), disk, q)
      ensures !r.Aborts? ==> !ToRead(Now(), disk, ROOT)
      ensures r.Aborts? && TopLevel(q) ==> old(Trapped(q)) || Misled(path, q) || FatherMissing(path, q)
    {
      hide Store.Valid, Grew, OnlyAbove, WasRead, Troubled, Mounted, Absolute, AllRead, ToRead, PathsOk, Above, Trapped,
           Misled, TopLevel, Misses, Remote, FatherMissing;
      father, lname := ROOT, "";
      var found := FindLocked(q, disk);
      InArena();
      if found.Found? { return Exists, father, lname; }
      if found.Aborted? { return Aborts, father, lname; }
      ghost var t := Now();
      ghost var d, n := AbsoluteSplit(q);
      TopLevelJoin(q, d, n);
      var dpath;
      dpath, lname := SplitPath(q);
      var directory := FindLocked(dpath, disk);
      OnlyAboveJoin(t, Now(), q, d, n);
      OnlyAboveOn(old(Now()), t, Now(), disk, q);
      if directory.Aborted? { TroubledBelow(path, q, d, n); }
      if directory.Missing? { MissedTwice(old(Now()), t, Now(), disk, q, d, n); }
      if !directory.Found? { return Aborts, father, lname; }
      father := directory.id;
      InArena();
      if entry[father].child.NotFetched? {
        ghost var t1 := Now();
        GetChild(father, disk);
        OneMoreAbove(t, t1, Now(), disk, q, father);
        OneMoreAbove(old(Now()), t1, Now(), disk, q, father);
      }
      InArena();
      ReadBefore(t, disk, q);
      NoMoreToRead(t, Now(), disk, ROOT);
      r := Done;
    }

    /** Creates the entry `q`. What spoils the tree is a file that becomes a directory, and a name that is
        there twice, as the lookup has missed it. `t` is the store after all reading. */
    method MakeEntry(q: string, kind: Kind, disk: Disk) returns (r: Outcome, ghost id: nat, ghost t: Snapshot)
      requires Valid() && Absolute(q) && Mounted(disk)
      modifies this`entry, this`firstFree, this`free, this`dirs, this`path, index
      ensures Valid() && Grew(old(Now()), t, disk) && OnlyAbove(old(Now()), t, q)
      ensures r.Done? || r.Exists? || r.Aborts? || r.Spoils?
      ensures !r.Done? ==> Now() == t
      ensures !r.Aborts? && !old(Misses(Now(), disk, q)) ==> AllRead(t, disk, q)
      ensures !r.Aborts? && q != "/" ==> !ToRead(t, disk, ROOT)
      ensures r.Aborts? && TopLevel(q) ==> old(Trapped(q)) || Misled(t.path, q) || FatherMissing(t.path, q)
      ensures r.Exists? ==> q in t.path.Values && (q in old(path).Values ==> t == old(Now()))
      ensures q == "/" ==> r.Exists?
      ensures r.Aborts? ==> Troubled(t.path, q) || FatherMissing(t.path, q) || Remote(old(path), q)
      ensures r.Done? ==> q !in t.path.Values && id !in t.path && path == t.path[id := q] && MadeEntry(entry, path, id, q, kind)
      ensures r.Done? ==> !FatherMissing(t.path, q) && !FatherNoDirectory(t.entry, t.path, q)
      ensures r.Done? ==> OthersStand(t, entry, entry[id].father) && entry[id].father < |entry| && entry[entry[id].father].kind.Directory?
      ensures r.Done? ==>
                var f := entry[id].father;
                f in t.path && f < |t.entry| && f < |entry| && entry[f] == t.entry[f].(child := First(id))
                && q == Join(t.path[f], entry[id].name)
      ensures !Troubled(t.path, q) && !Remote(old(path), q) && q != "/" ==> (r.Aborts? <==> FatherMissing(t.path, q))
      ensures r.Spoils? ==> FatherNoDirectory(t.entry, t.path, q) || (q in t.path.Values && old(Misses(Now(), disk, q)))
      ensures !Troubled(t.path, q) && !r.Aborts? && q != "/" ==>
                (r.Spoils? <==> FatherNoDirectory(t.entry, t.path, q) || (q in t.path.Values && old(Misses(Now(), disk, q))))
    {
      hide Index.Valid, Index.Indexed, Index.Pristine, Rooted, DoHash, FreeChain, All, HashesOk, KindsOk, PathOk,
           SameName, Confusing, Misled, Troubled, FatherMissing, FatherNoDirectory, Join, Grew, WasRead, Misses, Remote;
      id, t := 0, Now();
      InArena();
      GrewNot(t, disk);
      NothingAboveRoot(disk);
      if q == "/" { return Exists, id, t; }
      var father, lname;
      r, father, lname := FindFather(q, disk);
      t := Now();
      if r.Exists? { IsThere(q); }
      if !r.Done? { return; }
      FatherFit(father, q, lname);
      var taken := Holds(father, lname);
      if !entry[father].kind.Directory? || taken { return Spoils, id, t; }
      id := AddEntry(father, lname, kind);
      r := Done;
    }

    lemma NothingAboveRoot(disk: Disk)
      requires Valid()
      ensures AllRead(Now(), disk, "/") && "/" in path.Values
    {
      hide Index.Valid, Index.Indexed, FreeChain, Partition, HashesOk, KindsOk, Rooted;
      assert path[ROOT] == "/";
      AllReadThere(Now(), dirs, disk, ROOT);
    }

    lemma IsThere(q: string)
      requires Valid() && q in path.Values && q != "/"
      ensures !FatherMissing(path, q) && !FatherNoDirectory(entry, path, q)
    {
      hide FatherMissing, FatherNoDirectory;
      var i :| i in path && path[i] == q;
      InDirectory(entry, index.hash, dirs, path, i);
    }

    /** Whether a directory is empty, which may need reading it. */
    method CheckEmpty(id: nat, disk: Disk) returns (r: Outcome)
      requires Valid() && id in Live() && id < |entry| && Mounted(disk)
      modifies this`entry, this`firstFree, this`free, this`dirs, this`path, index
      ensures Valid() && Grew(old(Now()), Now(), disk) && id in Live() && id < |entry|
      ensures forall i :: WasRead(old(Now()), Now(), i) ==> i == id
      ensures r.NotDirectory? || !ToRead(Now(), disk, id)
      ensures r == if !entry[id].kind.Directory? then NotDirectory else if entry[id].child.Empty? then Done else NotEmpty
    {
      hide Store.Valid, Grew, WasRead, Mounted;
      InArena();
      GrewNot(Now(), disk);
      if !entry[id].kind.Directory? { return NotDirectory; }
      if entry[id].child.NotFetched? {
        GetChild(id, disk);
        InArena();
      }
      KindKept(old(Now()), Now(), disk, id);
      r := if entry[id].child.Empty? then Done else NotEmpty;
    }

    /** Removes an entry: an empty directory, or a file or symbolic link. */
    method RemoveFound(id: nat, isDir: bool, disk: Disk) returns (r: Outcome, ghost t: Snapshot)
      requires Valid() && id in Live() && id < |entry| && Mounted(disk)
      modifies this`entry, this`firstFree, this`free, this`dirs, this`path, index
      ensures Grew(old(Now()), t, disk) && forall i :: WasRead(old(Now()), t, i) ==> i == id
      ensures r.Done? || r.NotDirectory? || r.NotSupported? || r.NotEmpty? || r.Aborts? || Harms(r)
      ensures !r.Done? && !Harms(r) ==> Valid() && Now() == t
      ensures id in t.path && id < |t.entry| && (isDir && t.entry[id].kind.Directory? ==> !ToRead(t, disk, id))
      ensures r.Aborts? ==> id == ROOT && MayGo(t, id, isDir)
      ensures r.NotDirectory? <==> isDir && !t.entry[id].kind.Directory?
      ensures r.NotSupported? <==> !isDir && !t.entry[id].kind.Regular? && !t.entry[id].kind.Symlink?
      ensures r.NotEmpty? <==> Occupied(t, id, isDir)
      ensures r.Done? || Harms(r) ==> MayGo(t, id, isDir) && (r.Done? <==> CanLeave(t, id))
      ensures r.Done? ==> Valid() && path == t.path - {id} && firstFree == id
      ensures r.Done? ==> StayPut(t.entry, entry, path.Keys, 0)
      ensures Harms(r) ==> Damaged(Now(), t.path.Keys - {id})
    {
      hide Index.Valid, Index.Indexed, Index.Pristine, Index.Removable, Rooted, DoHash, FreeChain, All, HashesOk, PathOk,
           SameName, Partition, Grew, WasRead;
      t := Now();
      InArena();
      GrewNot(t, disk);
      if isDir {
        r := CheckEmpty(id, disk);
        t := Now();
        if !r.Done? { return; }
      } else if !Unlinkable(entry[id].kind) {
        return NotSupported, t;
      }
      if id == ROOT { return Aborts, t; }
      Leaves(id);
      InArena();
      r := DropEntry(id);
    }

    lemma Leaves(id: nat)
      requires Valid() && id in Live()
      ensures Removable(id) <==> CanLeave(Now(), id)
    {
      hide FreeChain, WellNamed;
    }

    /** Removes the entry `q`: an empty directory, or a file or symbolic link. `t` is the store after all
        reading. */
    method RmdirUnlink(q: string, isDir: bool, disk: Disk) returns (r: Outcome, ghost id: nat, ghost t: Snapshot)
      requires Valid() && Absolute(q) && Mounted(disk)
      modifies this`entry, this`firstFree, this`free, this`dirs, this`path, index
      ensures Grew(old(Now()), t, disk) && forall i :: WasRead(old(Now()), t, i) ==> Above(t.path[i], q) || t.path[i] == q
      ensures !r.Exists? && !r.Spoils? && (!r.Done? && !Harms(r) ==> Valid() && Now() == t)
      ensures r.NoEntry? ==> q != "/" && (old(Misses(Now(), disk, q)) || (q !in t.path.Values && AllRead(t, disk, q)))
      ensures r.Aborts? ==> q == "/" || Troubled(t.path, q)
      ensures q in old(path).Values ==> !r.NoEntry? && (r.Aborts? ==> q == "/" || old(Trapped(q)))
      ensures old(Trapped(q)) ==> r.Aborts?
      ensures !r.NoEntry? && !r.Aborts? ==>
                && id in t.path && t.path[id] == q && id < |t.entry| && (isDir && t.entry[id].kind.Directory? ==> !ToRead(t, disk, id))
                && (old(Misses(Now(), disk, q)) ==> Troubled(t.path, q))
      ensures r.NotDirectory? ==> isDir && !t.entry[id].kind.Directory?
      ensures r.NotSupported? ==> !isDir && !t.entry[id].kind.Regular? && !t.entry[id].kind.Symlink?
      ensures r.NotEmpty? ==> Occupied(t, id, isDir)
      ensures r.Done? || Harms(r) ==> MayGo(t, id, isDir) && (r.Done? <==> CanLeave(t, id))
      ensures r.Done? ==> Valid() && path == t.path - {id} && firstFree == id
      ensures r.Done? ==> StayPut(t.entry, entry, path.Keys, 0)
      ensures Harms(r) ==> Damaged(Now(), t.path.Keys - {id})
    {
      hide Store.Valid, Grew, WasRead, Troubled, Mounted, CanLeave, MayGo, Occupied, Damaged, AllRead, ToRead, Absolute, Misses;
      id := 0;
      var found := FindLocked(q, disk);
      t := Now();
      if found.Missing? { return NoEntry, id, t; }
      if found.Aborted? { return Aborts, id, t; }
      id := found.id;
      InArena();
      ghost var t1 := Now();
      r, t := RemoveFound(found.id, isDir, disk);
      AboveThenAt(old(Now()), t1, t, disk, id);
      if Troubled(t1.path, q) { StillTroubled(t1.path, t.path, q); }
    }

    lemma RootOnly(id: nat)
      requires Valid() && id in Live()
      ensures path[id] == "/" <==> id == ROOT
    {
      PathLength(entry, Live(), path, id);
    }

    // ---------------------------------------------------------------- reading a whole subtree

    /** Reads the directory the walk has come to. */
    method FetchOne(current: nat, disk: Disk, ghost c: Spot, ghost f: Forest, ghost passed: seq<nat>) returns (ghost f': Forest)
      requires Valid() && Visiting(entry, dirs, c, f, passed) && f.id == current && Unread(entry, current) && Mounted(disk)
      modifies this`entry, this`firstFree, this`free, this`dirs, this`path, index
      ensures Valid() && Grew(old(Now()), Now(), disk) && forall i :: WasRead(old(Now()), Now(), i) ==> i == current
      ensures Visiting(entry, dirs, c, f', passed) && f'.id == current && current in Live() && current < |entry|
      ensures entry[current].child.NotFetched? ==> Now() == old(Now()) && path[current] !in disk
      ensures !entry[current].child.NotFetched? ==> |LeftToRead(Now(), disk)| < |old(LeftToRead(Now(), disk))|
    {
      hide Index.Valid, Index.Indexed, Index.Pristine, FreeChain, Partition, Grew, WasRead, LeftToRead, Visiting, HashesOk,
           KindsOk, PathsOk, Rooted;
      InArena();
      VisitNew(entry, dirs, c, f, passed);
      GetChild(current, disk);
      InArena();
      if old(ToRead(Now(), disk, current)) {
        FilledBy(old(Now()), Now(), disk, current);
        f' := VisitRead(old(entry), entry, old(dirs), dirs, c, f, passed);
        LessToRead(old(Now()), Now(), old(Live()), disk, current);
        ReadNow(old(Now()), Now(), current);
      } else {
        f' := f;
      }
    }

    /** From an entry that is done with to the one after it, or the end: that is told by the father, who
        is looked at before the climb. `crashed` is a climb above the root. */
    method NextToFetch(rootid: nat, current: nat, ghost c0: Spot, ghost f0: Forest, ghost passed: seq<nat>)
      returns (ended: bool, crashed: bool, next: nat, ghost c: Spot, ghost f: Forest)
      requires Valid() && Finished(entry, dirs, c0, f0, passed) && f0.id == current && rootid in Live()
      ensures crashed <==> current == ROOT
      ensures !crashed && ended ==> Finished(entry, dirs, c, f, passed) && Ends(entry, f, rootid, current)
      ensures !crashed && !ended ==> Visiting(entry, dirs, c, f, passed) && f.id == next && Onward(path, rootid, c0, f0, c, f)
      ensures !crashed && current == rootid && rootid < |entry| && !ended ==>
                entry[rootid].next == 0 && entry[rootid].father != ROOT && entry[rootid].father != 0
    {
      hide Index.Valid, Index.Indexed, FreeChain, Partition, HashesOk, KindsOk, PathsOk, Finished, Visiting, Rising, Onward, Ends;
      InArena();
      ended, crashed, next, c, f := false, false, current, c0, f0;
      RiseFrom(entry, dirs, path, rootid, c, f, passed);
      if current == ROOT { RootLast(entry, dirs, c, f, passed); }
      RisingAt(entry, dirs, path, rootid, c0, f0, c, f, passed);
      while entry[next].next == 0
        invariant Rising(entry, dirs, path, rootid, c0, f0, c, f, passed) && f.Cons? && next == f.id && next < |entry|
        invariant next == current ||
                  (current < |entry| && entry[current].next == 0 && entry[current].father != ROOT && entry[current].father != 0)
        decreases SpotDepth(c)
      {
        RisingAt(entry, dirs, path, rootid, c0, f0, c, f, passed);
        var father := entry[next].father;
        if father == rootid || father == ROOT {
          c, f := RiseLast(entry, dirs, path, rootid, c0, f0, c, f, passed);
          return true, crashed, next, c, f;
        }
        if father == 0 { return ended, true, father, c, f; }
        c, f := Rise(entry, dirs, path, rootid, c0, f0, c, f, passed);
        next := father;
        RisingAt(entry, dirs, path, rootid, c0, f0, c, f, passed);
      }
      RisingAt(entry, dirs, path, rootid, c0, f0, c, f, passed);
      if next == rootid { return true, crashed, next, c, f; }
      RiseOn(entry, dirs, path, rootid, c0, f0, c, f, passed);
      next := entry[next].next;
      c, f := InRest(c, f.id, f.kids), f.rest;
    }

    method FetchNow(rootid: nat, current: nat, disk: Disk, ghost t0: Snapshot, ghost c: Spot, ghost f: Forest, ghost passed: seq<nat>)
      returns (ghost f': Forest)
      requires Valid() && Fetching(t0, Now(), dirs, disk, rootid, c, f, passed) && f.Cons? && f.id == current
      requires Unread(entry, current) && Mounted(disk) && rootid in path && rootid < |entry|
      modifies this`entry, this`firstFree, this`free, this`dirs, this`path, index
      ensures Valid() && Fetching(t0, Now(), dirs, disk, rootid, c, f', passed) && f'.Cons? && f'.id == current
      ensures current in path && current < |entry| && rootid in path && rootid < |entry|
      ensures entry[current].kind == old(entry[current].kind) && entry[rootid].kind == old(entry[rootid].kind)
      ensures entry[current].child.NotFetched? ==> Unread(entry, current) && path[current] !in disk && Now() == old(Now())
      ensures !entry[current].child.NotFetched? ==> |LeftToRead(Now(), disk)| < |old(LeftToRead(Now(), disk))|
    {
      hide Store.Valid, Grew, WasRead, Mounted, Visiting, Fetching, LeftToRead;
      ghost var t := Now();
      FetchAt(t0, t, dirs, disk, rootid, c, f, passed);
      InArena();
      f' := FetchOne(current, disk, c, f, passed);
      InArena();
      KindKept(t, Now(), disk, current);
      KindKept(t, Now(), disk, rootid);
      AtSpot(entry, dirs, c, f', passed);
      FetchMore(t0, t, Now(), old(dirs), dirs, disk, rootid, c, f, f', passed);
    }

    lemma IsSound()
      requires Valid()
      ensures Sound(Now(), dirs)
    {
    }

    lemma NoChild(id: nat)
      requires Valid() && id in Live() && id < |entry| && (entry[id].kind.Directory? ==> entry[id].child.Empty?)
      ensures !entry[id].child.First? && !Unread(entry, id)
    {
    }

    /** On from an entry without children. */
    method FetchPast(rootid: nat, current: nat, disk: Disk, ghost t0: Snapshot, ghost c: Spot, ghost f: Forest, ghost passed: seq<nat>)
      returns (ended: bool, crashed: bool, next: nat, ghost c': Spot, ghost f': Forest)
      requires Valid() && Fetching(t0, Now(), dirs, disk, rootid, c, f, passed) && f.Cons? && f.id == current
      requires current < |entry| && (entry[current].kind.Directory? ==> entry[current].child.Empty?)
      requires rootid in Live() && rootid < |entry| && entry[rootid].kind.Directory?
      ensures crashed ==> FetchResult(t0, Now(), disk, rootid, passed, false)
      ensures !crashed && ended ==> FetchResult(t0, Now(), disk, rootid, passed, true)
      ensures !crashed && !ended ==>
                Fetching(t0, Now(), dirs, disk, rootid, c', f', passed) && f'.Cons? && f'.id == next && Remaining(c', f') < Remaining(c, f)
    {
      hide Store.Valid, Grew, WasRead, Visiting, Finished, Fetching, FetchResult, LeftToRead, Onward, Ends, Sound, Remaining,
           StrictlyBelow;
      FetchAt(t0, Now(), dirs, disk, rootid, c, f, passed);
      NoChild(current);
      FetchLeaf(t0, Now(), dirs, disk, rootid, c, f, passed);
      IsSound();
      ended, crashed, next, c', f' := NextToFetch(rootid, current, c, f, passed);
      if crashed {
        FetchCrash(t0, Now(), dirs, disk, rootid, c, f, passed);
      } else if ended {
        FetchEnd(t0, Now(), dirs, disk, rootid, c, f, c', f', passed);
      } else {
        if current == rootid { NotTheRoot(rootid); }
        FetchOn(t0, Now(), dirs, disk, rootid, c, f, c', f', passed);
        GoesOn(c, f, c', f', rootid);
      }
    }

    lemma NotTheRoot(id: nat)
      requires Valid() && id in Live() && id < |entry| && entry[id].father != 0
      ensures id != ROOT
    {
      hide Index.Valid, Index.Indexed, FreeChain, Partition, HashesOk, KindsOk, PathsOk;
      var _, _ := Find(entry, dirs, id);
    }

    lemma GoesOn(c: Spot, f: Forest, c': Spot, f': Forest, rootid: nat)
      requires Onward(path, rootid, c, f, c', f')
      ensures f.Cons? && f'.Cons? && Remaining(c', f') < Remaining(c, f)
    {
    }

    /** One turn: the directory the walk has come to is read, and the walk goes on. */
    method FetchStep(rootid: nat, current: nat, disk: Disk, ghost t0: Snapshot, ghost c: Spot, ghost f: Forest, ghost passed: seq<nat>)
      returns (ended: bool, crashed: bool, next: nat, ghost c': Spot, ghost f': Forest)
      requires Valid() && Fetching(t0, Now(), dirs, disk, rootid, c, f, passed) && f.Cons? && f.id == current
      requires Mounted(disk) && rootid < |entry| && entry[rootid].kind.Directory?
      modifies this`entry, this`firstFree, this`free, this`dirs, this`path, index
      ensures Valid() && Grew(t0, Now(), disk) && rootid in path && rootid < |entry| && entry[rootid].kind.Directory?
      ensures crashed || ended ==> FetchResult(t0, Now(), disk, rootid, passed, !crashed)
      ensures !crashed && !ended ==> Fetching(t0, Now(), dirs, disk, rootid, c', f', passed) && f'.Cons? && f'.id == next
      ensures !crashed && !ended ==>
                || |LeftToRead(Now(), disk)| < |old(LeftToRead(Now(), disk))|
                || (Now() == old(Now()) && Remaining(c', f') < Remaining(c, f))
    {
      hide Store.Valid, Grew, WasRead, Mounted, Visiting, Fetching, FetchResult, LeftToRead, Sound, Remaining;
      InArena();
      FetchAt(t0, Now(), dirs, disk, rootid, c, f, passed);
      ended, crashed, next, c', f' := false, false, current, c, f;
      if entry[current].kind.Directory? && entry[current].child.NotFetched? {
        f' := FetchNow(rootid, current, disk, t0, c, f, passed);
        InArena();
        FetchAt(t0, Now(), dirs, disk, rootid, c', f', passed);
        if entry[current].child.NotFetched? {
          FetchBroken(t0, Now(), dirs, disk, rootid, c', f', passed);
          return ended, true, next, c', f';
        }
      }
      if entry[current].kind.Directory? && entry[current].child.First? {
        IsSound();
        FetchDown(t0, Now(), dirs, disk, rootid, c', f', passed);
        next := entry[current].child.id;
        c', f' := InKids(c', f'.id, f'.rest), f'.kids;
        return;
      }
      ended, crashed, next, c', f' := FetchPast(rootid, current, disk, t0, c', f', passed);
    }

    /** Reads all that lies below a directory, without a stack: down to the first child, on to the next,
        or back up to the father's next. Only after a climb it is looked whether this was where the walk
        started: from a directory without children that is the last of its siblings, and not in the root
        directory, the walk goes on to all that follows it in the tree. `passed` is what comes before. */
    method FetchChildren(rootid: nat, disk: Disk) returns (r: Outcome, ghost passed: seq<nat>)
      requires Valid() && rootid in Live() && rootid < |entry| && entry[rootid].kind.Directory? && Mounted(disk)
      modifies this`entry, this`firstFree, this`free, this`dirs, this`path, index
      ensures Valid() && Grew(old(Now()), Now(), disk) && (r.Done? || r.Aborts?)
      ensures passed + [rootid] <= Preorder(old(dirs))
      ensures rootid in path && FetchResult(old(Now()), Now(), disk, rootid, passed, r.Done?)
    {
      hide Store.Valid, Grew, WasRead, Mounted, Fetching, FetchResult, LeftToRead, Sound, Remaining;
      InArena();
      GrewNot(Now(), disk);
      IsSound();
      ghost var c, f := FetchStart(Now(), dirs, disk, rootid);
      passed := Before(c);
      var current := rootid;
      while true
        invariant Valid() && Fetching(old(Now()), Now(), dirs, disk, rootid, c, f, passed) && f.Cons? && f.id == current
        invariant rootid < |entry| && entry[rootid].kind.Directory?
        decreases |LeftToRead(Now(), disk)|, Remaining(c, f)
      {
        var ended, crashed;
        ended, crashed, current, c, f := FetchStep(rootid, current, disk, old(Now()), c, f, passed);
        if crashed { return Aborts, passed; }
        if ended { return Done, passed; }
      }
    }

    // ---------------------------------------------------------------- renaming

    /** The entry can leave the index and enter it again under the hash `h`: it is no index root, has
        no other entry behind it in its chain and, if it has one before it, joins another chain. */
    ghost predicate Movable(id: nat, h: nat)
      reads index
    {
      Removable(id) && index.cnext[id] == 0 &&
      (index.cprev[id] != 0 ==> exists i :: i in index.Indexed() && i != id && Hashed(index.hash, h, i))
    }

    /** Indexes an entry under the hash of its present path. */
    method Reindex(father: nat, child: nat, ghost stale: set<nat>) returns (r: Outcome)
      requires Arena(Live(), {}) && Tree(stale) && child in Live() && child in stale && child < |entry|
      requires father == entry[child].father && father in Live() && father !in stale
      modifies index
      ensures r.Done? || Harms(r)
      ensures r.Done? <==> old(Movable(child, DoHash(path[child])))
      ensures r.Done? ==> Arena(Live(), {}) && Tree(stale - {child})
      ensures r.Done? ==>
                && |index.hash| == |old(index.hash)|
                && forall i :: 0 <= i < |index.hash| && i != child ==> index.hash[i] == old(index.hash)[i]
      ensures Harms(r) ==> !index.Indexing(Live()) || !index.Indexing(Live() - {child})
    {
      hide Index.Valid, Index.Indexed, Index.Pristine, Index.Indexing, Index.InsertableAs, Rooted, PathOk, SameName,
           DoHash, Hash, FreeChain, All, HashesOk, KindsOk, PathsOk, Join;
      HashBuilt(entry, dirs, path, father, entry[child].name);
      Reindexed(entry, index.hash, dirs, path, stale, child);
      r := LeaveAndEnter(father, child, {});
    }

    /** Takes an entry out of the index and puts it in again, under the hash of its present path. */
    method LeaveAndEnter(father: nat, id: nat, ghost taken: set<nat>) returns (r: Outcome)
      requires Arena(Live(), {}) && id in Live() && father in Live() && father != id && father < |entry| && id < |entry|
      modifies index
      ensures r.Done? || Harms(r)
      ensures father < |old(index.hash)| && (r.Done? <==> old(Movable(id, BuildHash(father, id))))
      ensures r.Done? ==> Arena(Live(), {}) && index.hash == old(index.hash)[id := old(BuildHash(father, id))]
      ensures Harms(r) ==> !index.Indexing(Live()) || !index.Indexing(Live() - {id})
    {
      hide Index.Valid, Index.Indexed, Index.Pristine, Index.Indexing, FreeChain, Hash;
      ghost var h := BuildHash(father, id);
      r := LeaveIndex(id, Live(), {});
      if !r.Done? { return; }
      InUse(index, h);
      var clean := BuildAndInsert(father, id, Live() - {id});
      assert Live() - {id} + {id} == Live();
      r := if clean then Done else Corrupts;
    }

    /** From an entry that is done with to the one after it: the next sibling, or that of the nearest
        directory above that has one, unless the walk is back where it started. */
    method NextOnTheWay(root: nat, child: nat, father: nat, ghost c0: Spot, ghost f0: Forest, ghost base: Spot,
                        ghost kids: Forest, ghost visited: seq<nat>)
      returns (finished: bool, childid: nat, fatherid: nat, ghost c: Spot, ghost f: Forest)
      requires Returning(entry, c0, f0, base, kids, visited) && base.id == root && f0.id == child && FatherAt(c0) == father
      ensures finished ==> visited == Preorder(kids)
      ensures !finished ==> Walking(entry, c, f, base, kids, visited) && f.id == childid && FatherAt(c) == fatherid
    {
      childid, fatherid, c, f := child, father, c0, f0;
      AtDown(entry, c, f);
      while entry[childid].next == 0
        invariant Returning(entry, c, f, base, kids, visited) && f.id == childid && FatherAt(c) == fatherid
        invariant childid < |entry| && entry[childid].father == fatherid
        invariant f.rest.Cons? <==> entry[childid].next != 0
        decreases SpotDepth(c)
      {
        ghost var c', f' := WalkUp(entry, c, f, base, kids, visited);
        if entry[childid].father == root { return true, childid, fatherid, c, f; }
        childid := entry[childid].father;
        c, f := c', f';
        AtDown(entry, c, f);
        fatherid := entry[childid].father;
      }
      WalkOn(entry, c, f, base, kids, visited);
      childid := entry[childid].next;
      c, f := InRest(c, f.id, f.kids), f.rest;
      finished := false;
    }

    /** The entries `visited` below the directory of `kids` have the hashes of their paths again; those
        still to be met have not, and no other hash has changed. */
    ghost predicate Rehashing(kids: Forest, hash: seq<nat>, visited: seq<nat>)
      reads this, index
    {
      Arena(Live(), {}) && Tree(Todo(kids, visited)) && KeptOutside(hash, index.hash, visited)
    }

    method RehashOne(fatherid: nat, childid: nat, ghost kids: Forest, ghost hash: seq<nat>, ghost visited: seq<nat>)
      returns (r: Outcome)
      requires Rehashing(kids, hash, visited) && childid in Todo(kids, visited) && fatherid !in Todo(kids, visited)
      requires childid in Live() && childid < |entry| && fatherid == entry[childid].father && fatherid in Live()
      requires Todo(kids, visited + [childid]) == Todo(kids, visited) - {childid}
      modifies index
      ensures r.Done? || Harms(r)
      ensures r.Done? ==> Rehashing(kids, hash, visited + [childid])
      ensures Harms(r) ==> !index.Indexing(Live()) || !index.Indexing(Live() - {childid})
    {
      hide Index.Indexing, Movable, Index.Valid, Index.Indexed, Index.Pristine, WellNamed, FreeChain, Partition, Todo;
      r := Reindex(fatherid, childid, Todo(kids, visited));
    }

    /** Re-indexes all that is below a directory whose path has changed, without a stack: down to the
        first child, on to the next, or back up to the father's next. `f0` is the directory with its
        siblings to come, at the spot `c0`; the walk meets its entries in preorder. */
    method RehashChildren(root: nat, ghost c0: Spot, ghost f0: Forest) returns (r: Walk, ghost visited: seq<nat>)
      requires f0.Cons? && f0.id == root && At(entry, c0, f0, root) && Fill(c0, f0) == dirs
      requires Arena(Live(), {}) && Tree(All(f0.kids))
      modifies index
      ensures visited <= Preorder(f0.kids)
      ensures !r.Stuck? ==> Rehashing(f0.kids, old(index.hash), visited)
      ensures r.Complete? ==> visited == Preorder(f0.kids)
      ensures r.Partial? ==> r.id in Preorder(f0.kids) && r.id in visited && Unread(entry, r.id)
      ensures forall i :: i in visited && !(r.Partial? && i == r.id) ==> !Unread(entry, i)
      ensures r.Stuck? ==> r.id in Preorder(f0.kids) && visited + [r.id] <= Preorder(f0.kids)
      ensures r.Stuck? ==> !index.Indexing(Live()) || !index.Indexing(Live() - {r.id})
    {
      hide Index.Indexing, Movable, Index.Valid, Index.Indexed, Index.Pristine, Rooted, PathOk, SameName, DoHash,
           FreeChain, HashesOk, KindsOk, PathsOk, At, Partition;
      visited := [];
      AtDown(entry, c0, f0);
      BelowLive(entry, index.hash, dirs, path, All(f0.kids), c0, f0);
      assert Todo(f0.kids, []) == All(f0.kids);
      assert Rehashing(f0.kids, old(index.hash), []);
      hide Rehashing;
      if !entry[root].child.First? { return Complete, visited; }
      WalkStart(entry, c0, f0);
      ghost var base := InKids(c0, root, f0.rest);
      ghost var c, f := base, f0.kids;
      var childid, fatherid := entry[root].child.id, root;
      while true
        invariant Walking(entry, c, f, base, f0.kids, visited) && f.id == childid && fatherid == FatherAt(c)
        invariant Rehashing(f0.kids, old(index.hash), visited)
        invariant forall i :: i in visited ==> !Unread(entry, i)
        decreases |Preorder(f0.kids)| - |visited|
      {
        WalkStep(entry, c, f, base, f0.kids, visited);
        PreorderIds(f0.kids);
        var moved := RehashOne(fatherid, childid, f0.kids, old(index.hash), visited);
        if !moved.Done? { return Stuck(childid, moved.Breaks?), visited; }
        if entry[childid].kind.Directory? && entry[childid].child.NotFetched? {
          visited := visited + [childid];
          return Partial(childid), visited;
        }
        if entry[childid].kind.Directory? && entry[childid].child.First? {
          SubtreeWalk.WalkDown(entry, c, f, base, f0.kids, visited);
          c, f := InKids(c, f.id, f.rest), f.kids;
          visited := visited + [childid];
          fatherid := childid;
          childid := entry[childid].child.id;
          continue;
        }
        WalkBack(entry, c, f, base, f0.kids, visited);
        visited := visited + [childid];
        var finished;
        finished, childid, fatherid, c, f := NextOnTheWay(root, childid, fatherid, c, f, base, f0.kids, visited);
        if finished { return Complete, visited; }
      }
    }

    /** Takes an entry out of its directory and out of the index. */
    method DetachEntry(id: nat) returns (r: Outcome, ghost c: Spot, ghost f: Forest)
      requires Valid() && id in Live() && id != ROOT
      modifies this`entry, index
      ensures r.Done? || Harms(r)
      ensures r.Done? <==> old(Removable(id))
      ensures Harms(r) ==> !index.Indexing(Live() - {id})
      ensures r.Done? ==> Arena(Live() - {id}, {id}) && index.hash == old(index.hash) && index.OwnLinks(id)
      ensures f.Cons? && f.id == id && At(old(entry), c, f, id) && Fill(c, f) == dirs && RootAt(c, id) == ROOT
      ensures UnlinkWrites(old(entry), entry, c, id) && c.id in Live()
    {
      hide Index.Valid, Index.Indexed, Index.Pristine, Index.Indexing, Rooted, PathOk, SameName, DoHash, FreeChain,
           All, HashesOk, KindsOk, PathsOk;
      c, f := UnlinkEntry(id);
      FreeFrame(old(entry), entry, free, firstFree);
      r := LeaveIndex(id, Live(), {});
    }

    /** Renames an entry on its way, and links and indexes it in its new directory. */
    method ReattachEntry(id: nat, father: nat, lname: string) returns (clean: bool)
      requires Arena(Live() - {id}, {id}) && id in Live() && father in Live() && father != id
      requires id < |entry| && father < |entry|
      modifies this`entry, index
      ensures |entry| == |old(entry)| == |old(index.hash)|
      ensures index.Indexing(Live()) == clean == old(index.InsertableAs(id, HashIn(father, lname)))
      ensures clean ==> Arena(Live(), {})
      ensures LinkWrites(old(entry), entry, father, id) && entry[id].name == lname
      ensures index.hash == old(index.hash)[id := old(HashIn(father, lname))]
    {
      hide Index.Valid, Index.Indexed, Index.Pristine, Index.Indexing, Index.InsertableAs, All, FreeChain;
      entry := entry[id := entry[id].(name := lname)];
      LinkEntry(father, id);
      FreeFrame(old(entry), entry, free, firstFree);
      clean := BuildAndInsert(father, id, Live() - {id});
      assert Live() - {id} + {id} == Live();
    }

    /** Takes an entry from one directory to another, in the tree and in the index. */
    method Rehang(id: nat, father: nat, lname: string) returns (r: Outcome, ghost c: Spot, ghost f: Forest, ghost m1: seq<Entry>)
      requires Valid() && id in Live() && id != ROOT && father in Live() && father != id && id < |entry| && father < |entry|
      modifies this`entry, index
      ensures r.Done? || Harms(r)
      ensures father < |old(index.hash)| && (r.Done? <==> old(Movable(id, HashIn(father, lname))))
      ensures Harms(r) ==> !index.Indexing(Live()) || !index.Indexing(Live() - {id})
      ensures f.Cons? && f.id == id && At(old(entry), c, f, id) && Fill(c, f) == dirs && RootAt(c, id) == ROOT && c.id in Live()
      ensures UnlinkWrites(old(entry), m1, c, id)
      ensures r.Done? ==> Arena(Live(), {}) && LinkWrites(m1, entry, father, id) && entry[id].name == lname
      ensures r.Done? ==> index.hash == old(index.hash)[id := old(HashIn(father, lname))]
    {
      hide Index.Valid, Index.Indexed, Index.Pristine, Index.Indexing, Index.Removable, Hash, FreeChain, At, Fill,
           PathsOk, HashesOk, KindsOk, UnlinkWrites, LinkWrites;
      ghost var h := HashIn(father, lname);
      r, c, f := DetachEntry(id);
      m1 := entry;
      if !r.Done? { return; }
      UnlinkKeeps(old(entry), entry, c, id, father);
      InUse(index, h);
      var clean := ReattachEntry(id, father, lname);
      r := if clean then Done else Corrupts;
    }

    /** Moves an entry, with all that is below it, to another directory. This works out exactly if the
        entry is movable. */
    method MoveEntry(id: nat, father: nat, lname: string) returns (r: Outcome, ghost c: Spot, ghost f: Forest)
      requires Valid() && id in Live() && id != ROOT && father in Live() && father < |entry|
      requires entry[father].kind.Directory? && ValidName(lname) && Join(path[father], lname) !in path.Values
      requires !IsBelow(path[id], Join(path[father], lname))
      modifies this`entry, this`dirs, this`path, index
      ensures r.Done? || Harms(r)
      ensures r.Done? <==> old(Movable(id, DoHash(Join(path[father], lname))))
      ensures Harms(r) ==> !index.Indexing(old(Live())) || !index.Indexing(old(Live()) - {id})
      ensures r.Done? ==> f.Cons? && f.id == id && At(entry, c, f, id) && Fill(c, f) == dirs && Live() == old(Live())
      ensures r.Done? ==> Arena(Live(), {}) && Tree(All(f.kids))
      ensures r.Done? ==> path == Renamed(old(path), old(path)[id], Join(old(path)[father], lname)) && id < |entry|
      ensures r.Done? ==> path[id] == Join(old(path)[father], lname)
      ensures r.Done? ==> forall i :: Unread(entry, i) ==> Unread(old(entry), i)
      ensures r.Done? ==> Carried(old(entry), entry, Live(), id, father, lname)
      ensures r.Done? ==> forall i :: i in Preorder(f.kids) ==> i in old(path) && IsBelow(old(path)[id], old(path)[i])
    {
      hide Index.Valid, Index.Indexed, Index.Pristine, Index.Removable, Index.Indexing, Movable, PathOk, SameName,
           DoHash, Hash, FreeChain, HashesOk, KindsOk, Join, IsBelow, At, Fill, Lists, Partition, Disjoint,
           ValidName, UnlinkWrites, LinkWrites, SpotIds, Unread, StayPut;
      InArena();
      Into(entry, Live(), path, id, father, lname);
      RightHash(father, lname);
      ghost var c0, f0, m1;
      r, c0, f0, m1 := Rehang(id, father, lname);
      c, f := c0, f0;
      if !r.Done? { return; }
      MetBelow(old(entry), old(index.hash), dirs, path, {}, c0, f0);
      NotBelow(old(entry), dirs, path, old(index.hash), c0, f0, father);
      Moves(old(entry), m1, entry, c0, id, father);
      MoveStays(old(entry), m1, entry, c0, f0, Live(), father);
      dirs, c, f := RelocatedHashed(old(entry), m1, entry, old(index.hash), index.hash, dirs, path, c0, f0, father);
      path := Renamed(path, path[id], Join(path[father], lname));
    }

    lemma RightHash(father: nat, name: string)
      requires Valid() && father in Live()
      ensures father < |entry| && father < |index.hash| && HashIn(father, name) == DoHash(Join(path[father], name))
    {
      HashBuilt(entry, dirs, path, father, name);
      assert Hashed(index.hash, DoHash(path[father]), father);
    }

    /** All that is below an entry is read before it is renamed, as far as it is a directory. */
    method FetchFirst(id: nat, disk: Disk) returns (r: Outcome)
      requires Valid() && id in Live() && id < |entry| && Mounted(disk)
      modifies this`entry, this`firstFree, this`free, this`dirs, this`path, index
      ensures Valid() && Grew(old(Now()), Now(), disk) && (r.Done? || r.Aborts?) && id in path
      ensures r.Done? ==> AllKnown(Now(), id)
      ensures r.Aborts? ==> id == ROOT || Barred(Now(), disk, path[id])
      ensures forall i :: WasRead(old(Now()), Now(), i) ==> Escapes(Now(), id) || AtOrBelow(path, id, i)
    {
      hide Store.Valid, Grew, WasRead, Mounted, Unread, Escapes, Preorder, StrictlyBelow;
      InArena();
      GrewNot(Now(), disk);
      if entry[id].kind.Directory? {
        ghost var passed;
        r, passed := FetchChildren(id, disk);
      } else {
        NoDirectory(id);
        r := Done;
      }
    }

    lemma NoDirectory(id: nat)
      requires Valid() && id in Live() && id < |entry| && !entry[id].kind.Directory?
      ensures AllKnown(Now(), id)
    {
      hide Index.Valid, Index.Indexed, FreeChain, Partition, Rooted, PathsOk;
      InArena();
      ghost var c, f := Find(entry, dirs, id);
      NothingBelow(entry, index.hash, dirs, path, {}, c, f);
      BelowByPath(entry, index.hash, dirs, path, c, f);
    }

    /** The entry to be renamed, with all that is below it read. */
    method FindSource(q: string, ghost to: string, disk: Disk) returns (r: Outcome, id: nat)
      requires Valid() && Absolute(q) && Mounted(disk)
      modifies this`entry, this`firstFree, this`free, this`dirs, this`path, index
      ensures Valid() && Grew(old(Now()), Now(), disk) && ReadForRename(old(Now()), Now(), q, to)
      ensures r.Done? || r.NoEntry? || r.Aborts?
      ensures r.Done? ==> id in Live() && path[id] == q && AllKnown(Now(), id) && !ToRead(Now(), disk, ROOT)
      ensures r.NoEntry? ==> q != "/" && (old(Misses(Now(), disk, q)) || (q !in path.Values && AllRead(Now(), disk, q)))
      ensures r.Aborts? ==> q == "/" || Troubled(path, q) || Barred(Now(), disk, q)
      ensures r.Aborts? && q in old(path).Values ==> q == "/" || old(Trapped(q)) || Barred(Now(), disk, q)
      ensures r.Done? && old(Misses(Now(), disk, q)) ==> Troubled(path, q)
    {
      hide Store.Valid, Grew, WasRead, Mounted, Troubled, AllRead, ToRead, ReadForRename, AllKnown, Barred, Absolute,
           Escapes, AtOrBelow, Misses;
      id := 0;
      var found := FindLocked(q, disk);
      ReadAboveFirst(old(Now()), Now(), q, to);
      if found.Missing? { return NoEntry, id; }
      if found.Aborted? { return Aborts, id; }
      id := found.id;
      InArena();
      ghost var t := Now();
      RootOnly(id);
      r := FetchFirst(id, disk);
      InArena();
      ReadForFirst(old(Now()), t, Now(), disk, q, to, id);
      if Troubled(t.path, q) { StillFound(t, disk, q); }
      if q != "/" { NoMoreToRead(t, Now(), disk, ROOT); } else if r.Done? { RootKnown(disk, id); }
    }

    lemma StillFound(t: Snapshot, disk: Disk, q: string)
      requires Grew(t, Now(), disk) && Troubled(t.path, q)
      ensures Troubled(path, q)
    {
      StillTroubled(t.path, path, q);
    }

    lemma RootKnown(disk: Disk, id: nat)
      requires Valid() && id in Live() && id == ROOT && AllKnown(Now(), id)
      ensures !ToRead(Now(), disk, ROOT)
    {
      InArena();
      assert AtOrBelow(path, id, id);
    }

    /** The directory and name an entry is to get. */
    method FindTarget(to: string, disk: Disk) returns (r: Outcome, father: nat, lname: string)
      requires Valid() && Absolute(to) && Mounted(disk) && !ToRead(Now(), disk, ROOT)
      modifies this`entry, this`firstFree, this`free, this`dirs, this`path, index
      ensures Valid() && Grew(old(Now()), Now(), disk) && OnlyAbove(old(Now()), Now(), to)
      ensures r.Done? || r.NoEntry? || r.Exists? || r.NotDirectory? || r.Aborts? || r.Spoils?
      ensures r.Done? ==> father in Live() && father < |entry| && entry[father].kind.Directory?
      ensures r.Done? ==> ValidName(lname) && to == Join(path[father], lname) && to !in path.Values
      ensures r.Done? ==> !FatherMissing(path, to) && !FatherNoDirectory(entry, path, to)
      ensures !old(Misses(Now(), disk, to)) && !r.Aborts? ==> AllRead(Now(), disk, to)
      ensures r.Spoils? ==> to in path.Values && old(Misses(Now(), disk, to))
      ensures r.Exists? && old(Misses(Now(), disk, to)) ==> Troubled(path, to)
      ensures r.Exists? ==> to in path.Values
      ensures r.NoEntry? ==> FatherMissing(path, to) || Remote(old(path), to)
      ensures r.Aborts? ==> Troubled(path, to)
      ensures r.NotDirectory? ==> FatherNoDirectory(entry, path, to)
    {
      hide Store.Valid, Grew, WasRead, Mounted, Troubled, OnlyAbove, AllRead, ToRead, Absolute, FatherNoDirectory, Misses, Remote,
           FatherMissing, TopLevel;
      father, lname := 0, "";
      var target := FindLocked(to, disk);
      InArena();
      if target.Found? { return Exists, father, lname; }
      if target.Aborted? { return Aborts, father, lname; }
      ghost var t := Now();
      ghost var d, n := AbsoluteSplit(to);
      TopLevelJoin(to, d, n);
      var dpath;
      dpath, lname := SplitPath(to);
      var directory := FindLocked(dpath, disk);
      InArena();
      OnlyAboveJoin(t, Now(), to, d, n);
      OnlyAboveOn(old(Now()), t, Now(), disk, to);
      ReadBefore(t, disk, to);
      if directory.Missing? {
        MissedTwice(old(Now()), t, Now(), disk, to, d, n);
        return NoEntry, father, lname;
      }
      if directory.Aborted? {
        TroubledBelow(path, to, d, n);
        return Aborts, father, lname;
      }
      father := directory.id;
      FatherFit(father, to, lname);
      var taken := Holds(father, lname);
      r := if !entry[father].kind.Directory? then NotDirectory else if taken then Spoils else Done;
    }

    /** The lookups of a rename: the entry, and the directory and name it is to get. All that is below the
        entry, and the directory, is read on the way. */
    method PlanRename(q: string, to: string, disk: Disk) returns (r: Outcome, id: nat, father: nat, lname: string)
      requires Valid() && Absolute(q) && Absolute(to) && !IsBelow(q, to) && Mounted(disk)
      modifies this`entry, this`firstFree, this`free, this`dirs, this`path, index
      ensures Valid() && Grew(old(Now()), Now(), disk)
      ensures r.Done? || r.NoEntry? || r.Exists? || r.NotDirectory? || r.Aborts? || r.Spoils?
      ensures ReadForRename(old(Now()), Now(), q, to)
      ensures r.Done? ==> id in Live() && path[id] == q && id != ROOT && AllKnown(Now(), id)
      ensures r.Done? ==> father in Live() && father < |entry| && entry[father].kind.Directory?
      ensures r.Done? ==> ValidName(lname) && to == Join(path[father], lname) && to !in path.Values
      ensures r.Done? ==> !FatherMissing(path, to) && !FatherNoDirectory(entry, path, to)
      ensures r.Exists? ==> to in path.Values
      ensures r.Done? && !old(Misses(Now(), disk, to)) ==> AllRead(Now(), disk, to)
      ensures r.Spoils? ==> to in path.Values && old(Misses(Now(), disk, to))
      ensures r.NoEntry? ==>
                || (q != "/" && (old(Misses(Now(), disk, q)) || (q !in path.Values && AllRead(Now(), disk, q))))
                || FatherMissing(path, to) || Remote(old(path), to)
      ensures r.Aborts? ==> q == "/" || Troubled(path, q) || Troubled(path, to) || Barred(Now(), disk, q)
      ensures r.Aborts? && q in old(path).Values ==> q == "/" || old(Trapped(q)) || Troubled(path, to) || Barred(Now(), disk, q)
      ensures r.NotDirectory? ==> FatherNoDirectory(entry, path, to)
      ensures !r.NoEntry? && !r.Aborts? && old(Misses(Now(), disk, q)) ==> Troubled(path, q)
    {
      hide Store.Valid, Grew, WasRead, Mounted, Troubled, OnlyAbove, AllRead, ToRead, ReadForRename, AllKnown, Barred,
           FatherMissing, FatherNoDirectory, Join, IsBelow, Absolute, Misses, Remote;
      father, lname := 0, "";
      r, id := FindSource(q, to, disk);
      if !r.Done? { return; }
      InArena();
      ghost var t := Now();
      r, father, lname := FindTarget(to, disk);
      InArena();
      ReadForMore(old(Now()), t, Now(), disk, q, to);
      StillMissed(old(Now()), t, disk, to);
      RootOnly(id);
      if Troubled(t.path, q) { StillTroubled(t.path, path, q); }
      if id == ROOT && r.Done? { return Aborts, id, father, lname; }
      if id != ROOT { SourceStays(t, disk, to, id); }
    }

    lemma SourceStays(t: Snapshot, disk: Disk, to: string, id: nat)
      requires Valid() && Grew(t, Now(), disk) && OnlyAbove(t, Now(), to) && ROOT in t.path
      requires id in t.path && id != ROOT && !IsBelow(t.path[id], to) && AllKnown(t, id)
      ensures AllKnown(Now(), id)
    {
      KnownStays(t, Now(), disk, to, id);
    }

    /** Moves an entry and re-indexes what is below it. */
    method MoveAndRehash(id: nat, father: nat, lname: string) returns (r: Outcome, w: Walk)
      requires Valid() && id in Live() && id != ROOT && father in Live() && father < |entry|
      requires entry[father].kind.Directory? && ValidName(lname) && Join(path[father], lname) !in path.Values
      requires !IsBelow(path[id], Join(path[father], lname))
      modifies this`entry, this`dirs, this`path, index
      ensures r.Done? || Harms(r)
      ensures r.Done? <==> old(Movable(id, DoHash(Join(path[father], lname))))
      ensures Harms(r) ==> !index.Indexing(old(Live())) || !index.Indexing(old(Live()) - {id})
      ensures r.Done? ==> path == Renamed(old(path), old(path)[id], Join(old(path)[father], lname))
      ensures r.Done? ==> Carried(old(entry), entry, old(Live()), id, father, lname)
      ensures r.Done? && w.Complete? ==> Valid()
      ensures r.Done? && w.Partial? ==> Unread(old(entry), w.id)
      ensures r.Done? && !w.Complete? ==> w.id in old(path) && IsBelow(old(path)[id], old(path)[w.id])
      ensures r.Done? && w.Stuck? ==> !index.Indexing(old(Live())) || !index.Indexing(old(Live()) - {w.id})
    {
      hide Index.Valid, Index.Indexed, Index.Pristine, Index.Indexing, Rooted, PathOk, SameName, DoHash, FreeChain,
           HashesOk, KindsOk, PathsOk, At, Renamed, IsBelow, Join, Movable;
      w := Complete;
      ghost var c, f;
      r, c, f := MoveEntry(id, father, lname);
      if !r.Done? { return; }
      if entry[id].kind.Directory? && !entry[id].child.Empty? {
        MetBelow(entry, index.hash, dirs, path, All(f.kids), c, f);
        ghost var visited;
        w, visited := RehashChildren(id, c, f);
      } else {
        NothingBelow(entry, index.hash, dirs, path, All(f.kids), c, f);
      }
    }

    /** Renames `q`, which may be a directory with all that is below it, once that has been read. This goes
        well exactly if the entry, and then each one below it, is movable. `t` is the store after all
        reading. */
    method RenameEntry(q: string, to: string, disk: Disk) returns (r: Outcome, w: Walk, ghost id: nat, ghost t: Snapshot)
      requires Valid() && Absolute(q) && Absolute(to) && !IsBelow(q, to) && Mounted(disk)
      modifies this`entry, this`firstFree, this`free, this`dirs, this`path, index
      ensures Grew(old(Now()), t, disk) && ReadForRename(old(Now()), t, q, to)
      ensures r.Done? || r.NoEntry? || r.Exists? || r.NotDirectory? || r.Aborts? || r.Spoils? || Harms(r)
      ensures !r.Done? && !Harms(r) ==> Valid() && Now() == t
      ensures r.Exists? ==> to in t.path.Values
      ensures r.NoEntry? ==>
                || (q != "/" && (old(Misses(Now(), disk, q)) || (q !in t.path.Values && AllRead(t, disk, q))))
                || FatherMissing(t.path, to) || Remote(old(path), to)
      ensures r.Spoils? ==> to in t.path.Values && old(Misses(Now(), disk, to))
      ensures r.Aborts? ==> q == "/" || Troubled(t.path, q) || Troubled(t.path, to) || Barred(t, disk, q)
      ensures r.Aborts? && q in old(path).Values ==> q == "/" || old(Trapped(q)) || Troubled(t.path, to) || Barred(t, disk, q)
      ensures r.NotDirectory? ==> FatherNoDirectory(t.entry, t.path, to)
      ensures !r.NoEntry? && !r.Aborts? && old(Misses(Now(), disk, q)) ==> Troubled(t.path, q)
      ensures r.Done? || Harms(r) ==>
                && id in t.path && t.path[id] == q && id != ROOT && AllKnown(t, id)
                && to !in t.path.Values && (old(Misses(Now(), disk, to)) || AllRead(t, disk, to))
                && !FatherMissing(t.path, to) && !FatherNoDirectory(t.entry, t.path, to)
                && (r.Done? <==> CanMove(t, id, DoHash(to)))
      ensures r.Done? ==> path == Renamed(t.path, q, to) && !w.Partial? && (w.Complete? ==> Valid())
      ensures r.Done? ==> id < |t.entry| && id < |entry| && entry[id].kind == t.entry[id].kind && entry[id].child == t.entry[id].child
      ensures r.Done? ==> entry[id].father in t.path && to == Join(t.path[entry[id].father], entry[id].name)
      ensures r.Done? ==> StayPut(t.entry, entry, t.path.Keys - {id}, entry[id].father)
      ensures r.Done? && w.Stuck? ==>
                && w.id in t.path && IsBelow(q, t.path[w.id])
                && (Damaged(Now(), t.path.Keys) || Damaged(Now(), t.path.Keys - {w.id}))
      ensures Harms(r) ==> Damaged(Now(), t.path.Keys) || Damaged(Now(), t.path.Keys - {id})
    {
      hide Store.Valid, Grew, WasRead, DoHash, Renamed, IsBelow, Join, Movable, Troubled, CanMove, Mounted, ToRead,
           ReadForRename, Misses, Remote;
      var source, father, lname;
      r, source, father, lname := PlanRename(q, to, disk);
      t, w, id := Now(), Complete, source;
      if !r.Done? { return; }
      InArena();
      MovesAs(source, DoHash(to));
      r, w := MoveAndRehash(source, father, lname);
    }

    lemma MovesAs(id: nat, h: nat)
      requires Valid() && id in Live()
      ensures Movable(id, h) <==> CanMove(Now(), id, h)
      ensures index.Indexed() == path.Keys
    {
      hide FreeChain, WellNamed;
      InArena();
      Leaves(id);
    }

    // ---------------------------------------------------------------- flushing a directory

    /** Takes one entry out of the index and frees it; no link to it is mended. */
    method DiscardEntry(id: nat, ghost live: set<nat>) returns (r: Outcome)
      requires Arena(live, {}) && id in live
      modifies this`entry, this`firstFree, this`free, index
      ensures r.Done? || Harms(r)
      ensures r.Done? <==> old(Removable(id))
      ensures Harms(r) ==> !index.Indexing(live - {id}) && entry == old(entry)
      ensures id < |old(entry)| == |old(index.hash)|
      ensures r.Done? ==> Arena(live - {id}, {}) && free == [id] + old(free) && id < |entry|
      ensures r.Done? ==> entry == old(entry)[id := Blank(old(firstFree))] && index.hash == old(index.hash)[id := 0]
    {
      hide Index.Valid, Index.Indexed, Index.Pristine, Index.Removable, Index.Indexing, FreeChain;
      r := LeaveIndex(id, live, {});
      if !r.Done? { return; }
      Remove(id, live - {id}, {id});
    }

    /** The entries `visited` have lost their names; all others are as they were. */
    ghost predicate Wiped(m: seq<Entry>, visited: seq<nat>)
      reads this
    {
      KeptOutside(m, entry, visited) && forall i :: i in visited && i < |entry| ==> entry[i].name == ""
    }

    /** The entries `visited` have been freed, one after the other; all else is as it was. */
    ghost predicate Draining(m: seq<Entry>, hash: seq<nat>, free0: seq<nat>, visited: seq<nat>)
      reads this, index
    {
      && Arena(Live() - Elements(visited), {}) && Wiped(m, visited) && KeptOutside(hash, index.hash, visited)
      && free == Backwards(visited) + free0
    }

    method DiscardNext(id: nat, ghost m: seq<Entry>, ghost hash: seq<nat>, ghost free0: seq<nat>, ghost kids: Forest,
                       ghost visited: seq<nat>)
      returns (r: Outcome)
      requires Draining(m, hash, free0, visited) && id in Todo(kids, visited) && All(kids) <= Live()
      modifies this`entry, this`firstFree, this`free, index
      ensures r.Done? || Harms(r)
      ensures r.Done? ==> Draining(m, hash, free0, visited + [id])
      ensures Harms(r) ==> !index.Indexing(Live() - Elements(visited) - {id}) && entry == old(entry)
    {
      hide Index.Valid, Index.Indexed, Index.Pristine, Index.Removable, Index.Indexing, FreeChain, All, Backwards,
           KeptOutside;
      r := DiscardEntry(id, Live() - Elements(visited));
      if !r.Done? { return; }
      assert Live() - Elements(visited) - {id} == Live() - Elements(visited + [id]);
      WipedMore(hash, old(index.hash), index.hash, visited, id);
      WipedMore(m, old(entry), entry, visited, id);
      BackwardsMore(visited, id, free0);
    }

    /** The last of a list of siblings is gone: frees the directories above it as long as they are the
        last ones too. */
    method RewindTail(root: nat, father0: nat, ghost c0: Spot, ghost f0: Forest, ghost base: Spot, ghost kids: Forest,
                      ghost visited0: seq<nat>, ghost m: seq<Entry>, ghost hash: seq<nat>, ghost free0: seq<nat>)
      returns (r: Outcome, next: nat, stuck: nat, ghost c: Spot, ghost f: Forest, ghost visited: seq<nat>)
      requires Left(m, c0, f0, base, kids, visited0) && f0.rest.Nil? && father0 == FatherAt(c0) && base.id == root
      requires Draining(m, hash, free0, visited0) && All(kids) <= Live()
      modifies this`entry, this`firstFree, this`free, index
      ensures r.Done? || Harms(r)
      ensures r.Done? ==> Draining(m, hash, free0, visited) && |visited| >= |visited0|
      ensures r.Done? && next == 0 ==> visited == Postorder(kids)
      ensures r.Done? && next != 0 ==> Left(m, c, f, base, kids, visited) && f.rest.Cons? && next == f.rest.id
      ensures Harms(r) ==> stuck in All(kids) && Elements(visited) <= All(kids) && Wiped(m, visited) && stuck !in visited
      ensures Harms(r) ==> !index.Indexing(Live() - Elements(visited) - {stuck})
    {
      hide Index.Valid, Index.Indexed, Index.Pristine, Index.Removable, Index.Indexing, FreeChain, All, Arena,
           Backwards;
      next, stuck, c, f, visited := 0, 0, c0, f0, visited0;
      var father := father0;
      while next == 0
        invariant Left(m, c, f, base, kids, visited) && Draining(m, hash, free0, visited) && |visited| >= |visited0|
        invariant if next == 0 then f.rest.Nil? && father == FatherAt(c) else f.rest.Cons? && next == f.rest.id
        decreases SpotDepth(c), if next == 0 then 1 else 0
      {
        var c', f' := LeftUp(m, c, f, base, kids, visited);
        if father == root { return Done, 0, stuck, c, f, visited; }
        LeaveStep(m, c', f', base, kids, visited);
        var current := father;
        father := entry[current].father;
        next := entry[current].next;
        r := DiscardNext(current, m, hash, free0, kids, visited);
        if !r.Done? { return r, 0, current, c, f, visited; }
        c, f, visited := c', f', visited + [current];
        AtDown(m, c, f);
      }
      r := Done;
    }

    /** The walk of `RemoveChildren`: down to an entry with nothing below it, on to its next, or back
        up over the directories this leaves without children. */
    method DrainBelow(root: nat, child: nat, ghost c0: Spot, ghost f0: Forest, ghost base: Spot)
      returns (r: Outcome, stuck: nat, ghost visited: seq<nat>)
      requires Arena(Live(), {}) && Sinking(entry, c0, f0, base, f0, []) && f0.id == child && child != 0
      requires base.id == root && All(f0) <= Live()
      modifies this`entry, this`firstFree, this`free, index
      ensures r.Done? || Harms(r)
      ensures r.Done? ==> Draining(old(entry), old(index.hash), old(free), visited) && visited == Postorder(f0)
      ensures Harms(r) ==> stuck in All(f0) && Elements(visited) <= All(f0) && Wiped(old(entry), visited) && stuck !in visited
      ensures Harms(r) ==> !index.Indexing(Live() - Elements(visited) - {stuck})
    {
      hide Index.Valid, Index.Indexed, Index.Pristine, Index.Removable, Index.Indexing, FreeChain, All, Arena;
      ghost var m, hash, free0 := entry, index.hash, free;
      ghost var c, f := c0, f0;
      var current := child;
      stuck, visited := 0, [];
      assert Live() - Elements([]) == Live();
      while current != 0
        invariant Draining(m, hash, free0, visited)
        invariant if current == 0 then visited == Postorder(f0) else Sinking(m, c, f, base, f0, visited) && f.id == current
        decreases |Postorder(f0)| - |visited|, f
      {
        SinkLeaf(m, c, f, base, f0, visited);
        if entry[current].child.First? {
          SinkDown(m, c, f, base, f0, visited);
          current := entry[current].child.id;
          c, f := InKids(c, f.id, f.rest), f.kids;
          continue;
        }
        LeaveStep(m, c, f, base, f0, visited);
        var next, father := entry[current].next, entry[current].father;
        r := DiscardNext(current, m, hash, free0, f0, visited);
        if !r.Done? { return r, current, visited; }
        visited := visited + [current];
        if next == 0 {
          r, next, stuck, c, f, visited := RewindTail(root, father, c, f, base, f0, visited, m, hash, free0);
          if !r.Done? { return; }
        }
        if next != 0 {
          LeftOn(m, c, f, base, f0, visited);
          c, f := InRest(c, f.id, f.kids), f.rest;
        }
        current := next;
      }
      r := Done;
    }

    /** Frees all that is below a directory, without a stack; the directory itself is unread afterwards. */
    method RemoveChildren(id: nat) returns (r: Outcome, stuck: nat, ghost visited: seq<nat>)
      requires Valid() && id in Live() && id < |entry|
      modifies this`entry, this`firstFree, this`free, this`dirs, this`path, index
      ensures r.Done? || Harms(r)
      ensures Harms(r) ==> stuck in old(path) && StrictlyBelow(old(path), id, stuck) && stuck !in visited
      ensures Harms(r) ==> Wiped(old(entry), visited) && !index.Indexing(old(Live()) - Elements(visited) - {stuck})
      ensures forall i :: i in visited ==> i in old(path) && StrictlyBelow(old(path), id, i)
      ensures r.Done? ==> Valid() && free == Backwards(visited) + old(free) && NoDup(visited)
      ensures r.Done? ==> path == old(path) - Elements(visited) && id in old(path)
      ensures r.Done? ==> forall i :: i in old(path) ==> (i in visited <==> StrictlyBelow(old(path), id, i))
      ensures r.Done? ==> |entry| == |old(entry)| && forall i :: 0 <= i < |entry| && i != id && i !in visited ==> entry[i] == old(entry)[i]
      ensures r.Done? ==> entry[id] == if visited == [] then old(entry)[id] else old(entry)[id].(child := NotFetched)
    {
      hide Partition, Postorder, Wiped, Index.Valid, Index.Indexed, Index.Pristine, Index.Removable, Index.Indexing,
           FreeChain, PathOk, SameName, HashesOk, KindsOk, At, StrictlyBelow;
      ghost var c, f := Find(entry, dirs, id);
      AtDown(entry, c, f);
      BelowByPath(entry, index.hash, dirs, path, c, f);
      PostorderIds(f.kids);
      stuck, visited := 0, [];
      if !entry[id].child.First? {
        return Done, stuck, visited;
      }
      SinkStart(entry, c, f);
      BelowLive(entry, index.hash, dirs, path, {}, c, f);
      r, stuck, visited := DrainBelow(id, entry[id].child.id, InKids(c, id, f.rest), f.kids, InKids(c, id, f.rest));
      if !r.Done? { return; }
      MarkUnread(id, c, f, old(entry), old(index.hash), old(free), visited);
    }

    method ForgetChildren(id: nat, ghost live: set<nat>)
      requires Arena(live, {}) && id in live && id < |entry|
      modifies this`entry
      ensures Arena(live, {}) && entry == old(entry)[id := old(entry)[id].(child := NotFetched)]
    {
      hide Index.Valid, Index.Indexed, Index.Pristine, FreeChain;
      entry := entry[id := entry[id].(child := NotFetched)];
      FreeFrame(old(entry), entry, free, firstFree);
    }

    /** What is left to do once nothing is below the directory any more. */
    method MarkUnread(id: nat, ghost c: Spot, ghost f: Forest, ghost m: seq<Entry>, ghost hash: seq<nat>, ghost free0: seq<nat>,
                      ghost visited: seq<nat>)
      requires Draining(m, hash, free0, visited) && WellNamed(m, hash, dirs, path, {})
      requires f.Cons? && f.id == id && At(m, c, f, id) && Fill(c, f) == dirs && RootAt(c, id) == ROOT
      requires visited == Postorder(f.kids) && id < |m|
      modifies this`entry, this`dirs, this`path
      ensures Valid() && path == old(path) - Elements(visited) && NoDup(visited)
      ensures |entry| == |m| && forall i :: 0 <= i < |entry| && i != id && i !in visited ==> entry[i] == m[i]
      ensures entry[id] == m[id].(child := NotFetched)
    {
      hide Index.Valid, Index.Indexed, Index.Pristine, FreeChain, WellNamed, Backwards, At, Fill, Partition, NoDup;
      DrainedOnce(m, dirs, c, f);
      ForgetChildren(id, Live() - Elements(visited));
      dirs := FlushedNamed(m, entry, hash, index.hash, dirs, path, c, f);
      path := path - All(f.kids);
    }
  }
}
