/** Whole runs of operations on a metadata store. */
module StoreRuns {
  import opened DirForest
  import opened FetchWalk
  import opened HashIndex
  import opened IndexSearch
  import opened MetadataStore
  import opened PathHash
  import opened PathNames
  import opened Removal
  import opened Sequences
  import opened StoreMoves
  import opened StoreReading
  import opened StoreState
  import opened SubtreeWalk

  /** The disks are what the source holds at the time of the operation. */
  datatype Op =
    | Make(path: string, kind: Kind, disk: Disk)
    | Drop(path: string, isDir: bool, disk: Disk)
    | Rename(path: string, to: string, disk: Disk)
    | Fetch(path: string, disk: Disk)
    | Flush(path: string)

  /** What the kernel passes on: absolute paths, and no renaming of a directory into itself. */
  ghost predicate WellFormed(op: Op) {
    && Absolute(op.path) && (!op.Flush? ==> Mounted(op.disk))
    && (op.Rename? ==> Absolute(op.to) && !IsBelow(op.path, op.to))
  }

  // ---------------------------------------------------------------- what an operation does, and when it fails

  /** Entries that kept their names, the root among them. */
  ghost function Standing(t: Snapshot, t': Snapshot): set<nat> {
    set i | i in t.path && (i == ROOT || (i < |t'.entry| && t'.entry[i].name != ""))
  }

  /** Only directories above `q`, and what is at `q`, were read. */
  ghost predicate OnlyUpTo(t: Snapshot, t': Snapshot, q: string) {
    forall i :: WasRead(t, t', i) ==> Above(t'.path[i], q) || t'.path[i] == q
  }

  /** What an operation reads from the source, before all else, takes the store from `t` to `t'`. */
  ghost predicate Reads(op: Op, t: Snapshot, t': Snapshot) {
    match op
    case Make(q, _, disk) => Grew(t, t', disk) && OnlyAbove(t, t', q)
    case Drop(q, _, disk) => Grew(t, t', disk) && OnlyUpTo(t, t', q)
    case Rename(q, to, disk) => Grew(t, t', disk) && ReadForRename(t, t', q, to)
    case Fetch(q, disk) => Grew(t, t', disk) && OnlyUpTo(t, t', q)
    case Flush(_) => t' == t
  }

  /** `q` is not there, and all directories above it have been read. */
  ghost predicate Absent(t: Snapshot, disk: Disk, q: string) {
    q !in t.path.Values && AllRead(t, disk, q)
  }

  /** The entry `id` was made in the directory `father`, with path `q` and the kind asked for, a directory
      with nothing in it; the other entries are what and where they were. */
  ghost predicate Made(t: Snapshot, t': Snapshot, q: string, kind: Kind, id: nat, father: nat) {
    && id !in t.path && t'.path == t.path[id := q] && id < |t'.entry| && t'.entry[id].kind == kind
    && (if kind.Directory? then t'.entry[id].child.Empty? else t'.entry[id].child.NotFetched?)
    && t'.entry[id].father == father && father in t.path && q == Join(t.path[father], t'.entry[id].name)
    && StayPut(t.entry, t'.entry, t.path.Keys, father)
  }

  /** Creating `q` adds it, unless it is there. `t` is the store before, `t'` after reading, `t''` in the end. */
  ghost predicate MakeEffect(t: Snapshot, t': Snapshot, t'': Snapshot, q: string, kind: Kind, disk: Disk) {
    if q in t'.path.Values then t'' == t' && (Misses(t, disk, q) ==> Troubled(t'.path, q)) else
      && !FatherMissing(t'.path, q) && !FatherNoDirectory(t'.entry, t'.path, q)
      && (Misses(t, disk, q) || Absent(t', disk, q))
      && exists id, father: nat :: Made(t', t'', q, kind, id, father)
  }

  /** The entry `i` went, and the others are what and where they were. */
  ghost predicate Dropped(t: Snapshot, t': Snapshot, i: nat) {
    t'.path == t.path - {i} && StayPut(t.entry, t'.entry, t'.path.Keys, 0)
  }

  /** Removing `q` takes away the one entry there is at `q`, if it may go. */
  ghost predicate DropEffect(t: Snapshot, t': Snapshot, t'': Snapshot, q: string, isDir: bool, disk: Disk) {
    || (t'' == t' && (Misses(t, disk, q) || Absent(t', disk, q)))
    || ((Misses(t, disk, q) ==> Troubled(t'.path, q)) &&
        exists i :: i in t'.path && t'.path[i] == q && if MayGo(t', i, isDir) then Dropped(t', t'', i) else t'' == t')
  }

  /** The entry `i` is the same, with the father and the name that spell `to`; the others are what and where
      they were. */
  ghost predicate Moved(t: Snapshot, t': Snapshot, i: nat, to: string) {
    && i < |t.entry| && i < |t'.entry| && t'.entry[i].kind == t.entry[i].kind && t'.entry[i].child == t.entry[i].child
    && t'.entry[i].father in t.path && to == Join(t.path[t'.entry[i].father], t'.entry[i].name)
    && StayPut(t.entry, t'.entry, t.path.Keys - {i}, t'.entry[i].father)
  }

  /** Renaming moves `q` and all below it, which was read, unless `q` is not there, or `to` is, or there is
      no directory for `to`. */
  ghost predicate RenameEffect(t: Snapshot, t': Snapshot, t'': Snapshot, q: string, to: string, disk: Disk) {
    || (t'' == t' &&
        (Misses(t, disk, q) || Absent(t', disk, q) || to in t'.path.Values || FatherMissing(t'.path, to)
         || Remote(t.path, to) || FatherNoDirectory(t'.entry, t'.path, to)))
    || ((Misses(t, disk, q) ==> Troubled(t'.path, q)) && to !in t'.path.Values && (Misses(t, disk, to) || AllRead(t', disk, to))
        && !FatherMissing(t'.path, to) && !FatherNoDirectory(t'.entry, t'.path, to)
        && (exists i :: i in t'.path && t'.path[i] == q && AllKnown(t', i) && Moved(t', t'', i, to))
        && t''.path == Renamed(t'.path, q, to))
  }

  /** Reading a directory adds what is in it, and nothing else. */
  ghost predicate FetchEffect(t: Snapshot, t': Snapshot, t'': Snapshot, q: string, disk: Disk) {
    t'' == t' &&
    (Misses(t, disk, q) || Absent(t', disk, q) || exists i :: i in t'.path && t'.path[i] == q && !ToRead(t', disk, i))
  }

  /** What is not below `q`. */
  ghost function NotBelow(path: map<nat, string>, q: string): map<nat, string> {
    map i | i in path && !Above(q, path[i]) :: path[i]
  }

  ghost predicate Populated(path: map<nat, string>, q: string) {
    exists i :: i in path && Above(q, path[i])
  }

  /** Flushing `q` takes away all below it. If there was anything, `q` is to be read again; all other entries
      are as they were. */
  ghost predicate FlushEffect(t: Snapshot, t': Snapshot, q: string) {
    && t'.path == NotBelow(t.path, q)
    && forall i :: i in t'.path ==>
         && i < |t.entry| && i < |t'.entry|
         && t'.entry[i] == if t.path[i] == q && Populated(t.path, q) then t.entry[i].(child := NotFetched) else t.entry[i]
  }

  ghost predicate Effect(op: Op, t: Snapshot, t': Snapshot, t'': Snapshot) {
    match op
    case Make(q, kind, disk) => MakeEffect(t, t', t'', q, kind, disk)
    case Drop(q, isDir, disk) => DropEffect(t, t', t'', q, isDir, disk)
    case Rename(q, to, disk) => RenameEffect(t, t', t'', q, to, disk)
    case Fetch(q, disk) => FetchEffect(t, t', t'', q, disk)
    case Flush(q) => FlushEffect(t', t'', q)
  }

  /** Why mcachefs does not get through an operation: a lookup is led astray by equal hashes, or finds
      no directory; an entry cannot leave the index, or not enter it again; a directory that is to be
      read for a rename cannot be opened; a directory gets a name twice, or a file an entry below it. `t`
      is the store before, `t'` after reading, `t''` in the end. */
  ghost predicate Fails(op: Op, t: Snapshot, t': Snapshot, t'': Snapshot) {
    match op
    case Make(q, _, disk) =>
      Troubled(t'.path, q) || FatherMissing(t'.path, q) || Remote(t.path, q) || FatherNoDirectory(t'.entry, t'.path, q) ||
      (q in t'.path.Values && Misses(t, disk, q))
    case Drop(q, _, _) =>
      q == "/" || Troubled(t'.path, q) || exists i :: i in t'.path && t'.path[i] == q && !CanLeave(t', i)
    case Rename(q, to, disk) =>
      || q == "/" || Troubled(t'.path, q) || Troubled(t'.path, to) || Barred(t', disk, q)
      || (to in t'.path.Values && Misses(t, disk, to))
      || (exists i :: i in t'.path && t'.path[i] == q && !CanMove(t', i, DoHash(to)))
      || (exists i :: i in t'.path && IsBelow(q, t'.path[i]) &&
            (Damaged(t'', t'.path.Keys) || Damaged(t'', t'.path.Keys - {i})))
    case Fetch(q, _) => Troubled(t'.path, q)
    case Flush(q) =>
      Confusing(t'.path, q) ||
      exists i :: i in t'.path && Above(q, t'.path[i]) && i in Standing(t', t'') && Damaged(t'', Standing(t', t'') - {i})
  }

  // ---------------------------------------------------------------- single operations

  method MakeAt(s: Store, q: string, kind: Kind, disk: Disk) returns (sound: bool, ghost t: Snapshot)
    requires s.Valid() && Absolute(q) && Mounted(disk)
    modifies s, s.index
    ensures Reads(Make(q, kind, disk), old(s.Now()), t)
    ensures sound ==> s.Valid() && MakeEffect(old(s.Now()), t, s.Now(), q, kind, disk)
    ensures !sound ==> Fails(Make(q, kind, disk), old(s.Now()), t, s.Now())
  {
    hide Store.Valid, Troubled, FatherMissing, FatherNoDirectory, Grew, OnlyAbove, ToRead, AllRead, Misses, Remote;
    s.NothingAboveRoot(disk);
    if q == "/" { s.NotMissed(q, disk); }
    var r;
    ghost var id;
    r, id, t := s.MakeEntry(q, kind, disk);
    if r.Done? { MadeThere(t, s.Now(), q, kind, id); }
    sound := r.Done? || r.Exists?;
  }

  lemma MadeThere(t: Snapshot, t': Snapshot, q: string, kind: Kind, id: nat)
    requires id !in t.path && t'.path == t.path[id := q] && MadeEntry(t'.entry, t'.path, id, q, kind)
    requires var f := t'.entry[id].father;
             OthersStand(t, t'.entry, f) && f in t.path && f < |t.entry| && f < |t'.entry|
             && t'.entry[f] == t.entry[f].(child := First(id)) && q == Join(t.path[f], t'.entry[id].name)
    ensures Made(t, t', q, kind, id, t'.entry[id].father)
  {
    hide Join;
  }

  method DropAt(s: Store, q: string, isDir: bool, disk: Disk) returns (sound: bool, ghost t: Snapshot)
    requires s.Valid() && Absolute(q) && Mounted(disk)
    modifies s, s.index
    ensures Reads(Drop(q, isDir, disk), old(s.Now()), t)
    ensures sound ==> s.Valid() && DropEffect(old(s.Now()), t, s.Now(), q, isDir, disk)
    ensures !sound ==> Fails(Drop(q, isDir, disk), old(s.Now()), t, s.Now())
  {
    hide Store.Valid, Troubled, Grew, WasRead, ToRead, AllRead, Misses;
    var r;
    ghost var id;
    r, id, t := s.RmdirUnlink(q, isDir, disk);
    sound := !r.Aborts? && !r.Breaks? && !r.Corrupts?;
  }

  method RenameAt(s: Store, q: string, to: string, disk: Disk) returns (sound: bool, ghost t: Snapshot)
    requires s.Valid() && Absolute(q) && Absolute(to) && !IsBelow(q, to) && Mounted(disk)
    modifies s, s.index
    ensures Reads(Rename(q, to, disk), old(s.Now()), t)
    ensures sound ==> s.Valid() && RenameEffect(old(s.Now()), t, s.Now(), q, to, disk)
    ensures !sound ==> Fails(Rename(q, to, disk), old(s.Now()), t, s.Now())
  {
    hide Store.Valid, Troubled, FatherMissing, FatherNoDirectory, Renamed, IsBelow, DoHash, Grew, ToRead, AllRead, AllKnown,
         Barred, ReadForRename, CanMove, Damaged, Misses, Remote;
    var r, w;
    ghost var id;
    r, w, id, t := s.RenameEntry(q, to, disk);
    sound := !r.Aborts? && !r.Spoils? && !r.Breaks? && !r.Corrupts? && (r.Done? ==> w.Complete?);
  }

  method FetchAt(s: Store, q: string, disk: Disk) returns (sound: bool, ghost t: Snapshot)
    requires s.Valid() && Absolute(q) && Mounted(disk)
    modifies s, s.index
    ensures Reads(Fetch(q, disk), old(s.Now()), t)
    ensures sound ==> s.Valid() && FetchEffect(old(s.Now()), t, s.Now(), q, disk)
    ensures !sound ==> Fails(Fetch(q, disk), old(s.Now()), t, s.Now())
  {
    hide Store.Valid, Troubled, Grew, WasRead, ToRead, AllRead, Misses, OnlyAbove, Above, Reads, FetchEffect, Mounted,
         Absolute, Store.Trapped, TopLevel;
    var r := s.FindLocked(q, disk);
    ghost var t1 := s.Now();
    sound := !r.Aborted?;
    if r.Found? {
      s.InArena();
      s.GetChild(r.id, disk);
      FetchedAt(old(s.Now()), t1, s.Now(), q, disk, r.id);
    } else {
      NothingFetched(old(s.Now()), t1, q, disk);
    }
    t := s.Now();
  }

  lemma FetchedAt(t: Snapshot, t1: Snapshot, t2: Snapshot, q: string, disk: Disk, id: nat)
    requires Grew(t, t1, disk) && OnlyAbove(t, t1, q) && id in t1.path && t1.path[id] == q
    requires Grew(t1, t2, disk) && !ToRead(t2, disk, id) && forall i :: WasRead(t1, t2, i) ==> i == id
    ensures Reads(Fetch(q, disk), t, t2) && FetchEffect(t, t2, t2, q, disk)
  {
    hide Grew, WasRead, ToRead;
    AboveThenAt(t, t1, t2, disk, id);
  }

  lemma NothingFetched(t: Snapshot, t': Snapshot, q: string, disk: Disk)
    requires Grew(t, t', disk) && OnlyAbove(t, t', q)
    ensures Reads(Fetch(q, disk), t, t')
    ensures Misses(t, disk, q) || (q !in t'.path.Values && AllRead(t', disk, q)) ==> FetchEffect(t, t', t', q, disk)
  {
  }

  method FlushAt(s: Store, q: string) returns (sound: bool)
    requires s.Valid() && q != "" && q[0] == '/'
    modifies s, s.index
    ensures sound ==> s.Valid() && FlushEffect(old(s.Now()), s.Now(), q)
    ensures !sound ==> Fails(Flush(q), old(s.Now()), old(s.Now()), s.Now())
  {
    hide Store.Valid, Confusing, IsBelow, StrictlyBelow, Above, NotBelow, Standing, Store.Wiped, Fails,
         FlushEffect, TripsFirst, PathsOk, Elements;
    ghost var t := s.Now();
    BelowHere(s, q);
    FlushMeans(q, t, t);
    var r := s.FindIndexed(q);
    if r.Aborted? { return false; }
    if r.Missing? {
      NoneBelow(t, q);
      return true;
    }
    s.InArena();
    OneAt(s, r.id);
    var o, stuck, visited := s.RemoveChildren(r.id);
    sound := o.Done?;
    FlushMeans(q, t, s.Now());
    if sound {
      FlushedAll(t, s.Now(), q, r.id, visited);
    } else {
      WipedOnly(s, t, visited);
      StandingOf(t, s.Now(), visited);
      StuckThere(t, s.Now(), q, stuck, visited);
    }
  }

  lemma FlushMeans(q: string, t: Snapshot, t': Snapshot)
    ensures Confusing(t.path, q) ==> Fails(Flush(q), t, t, t')
  {
  }

  lemma NoneBelow(t: Snapshot, q: string)
    requires forall i :: i in t.path ==> i < |t.entry| && !Above(q, t.path[i])
    ensures FlushEffect(t, t, q)
  {
    assert NotBelow(t.path, q) == t.path;
  }

  lemma FlushedAll(t: Snapshot, t': Snapshot, q: string, id: nat, visited: seq<nat>)
    requires id in t.path && t.path[id] == q && forall i :: i in t.path ==> i < |t.entry| && (t.path[i] == q ==> i == id)
    requires forall i :: i in t.path ==> (Above(q, t.path[i]) <==> StrictlyBelow(t.path, id, i))
    requires forall i :: i in t.path ==> (i in visited <==> StrictlyBelow(t.path, id, i))
    requires t'.path == t.path - Elements(visited)
    requires |t'.entry| == |t.entry| && forall i :: 0 <= i < |t.entry| && i != id && i !in visited ==> t'.entry[i] == t.entry[i]
    requires t'.entry[id] == if visited == [] then t.entry[id] else t.entry[id].(child := NotFetched)
    requires forall i :: i in visited ==> i in t.path
    ensures FlushEffect(t, t', q)
  {
    hide Above, StrictlyBelow;
    assert t'.path == NotBelow(t.path, q);
    if visited != [] { assert Above(q, t.path[visited[0]]); }
  }

  lemma WipedOnly(s: Store, t: Snapshot, visited: seq<nat>)
    requires s.Wiped(t.entry, visited)
    ensures |s.entry| == |t.entry| && forall i :: 0 <= i < |t.entry| && i !in visited ==> s.entry[i] == t.entry[i]
    ensures forall i :: i in visited && i < |s.entry| ==> s.entry[i].name == ""
  {
  }

  lemma StuckThere(t: Snapshot, t': Snapshot, q: string, stuck: nat, visited: seq<nat>)
    requires stuck in t.path && Above(q, t.path[stuck]) && stuck !in visited
    requires Standing(t, t') == t.path.Keys - Elements(visited) && Damaged(t', t.path.Keys - Elements(visited) - {stuck})
    ensures Fails(Flush(q), t, t, t')
  {
    hide Standing, Damaged;
    assert stuck in Standing(t, t');
  }

  lemma BelowHere(s: Store, q: string)
    requires s.Valid() && q != ""
    ensures q !in s.path.Values ==> forall i :: i in s.path ==> !Above(q, s.path[i])
    ensures forall id, i :: id in s.path && i in s.path && s.path[id] == q ==> (Above(q, s.path[i]) <==> StrictlyBelow(s.path, id, i))
    ensures forall i :: i in s.path ==> i < |s.entry| && (i != ROOT ==> s.entry[i].name != "")
    ensures s.path.Keys == s.Live() && ROOT in s.path && !Above(q, s.path[ROOT])
  {
    hide Index.Valid, Index.Indexed;
    assert |q + "/"| > |"/"|;
    forall i | i in s.path
      ensures s.path[i] == "/" <==> i == ROOT
      ensures q !in s.path.Values ==> !Above(q, s.path[i])
      ensures i != ROOT ==> i < |s.entry| && s.entry[i].name != ""
    {
      PathLength(s.entry, s.Live(), s.path, i);
      if i != ROOT { assert PathOk(s.entry, s.path, i); }
      if q !in s.path.Values {
        assert s.path[ROOT] == "/";
        if IsBelow(q, s.path[i]) { AncestorThere(s.entry, s.Live(), s.path, q, i); }
      }
    }
  }

  lemma OneAt(s: Store, id: nat)
    requires s.Valid() && id in s.path
    ensures forall i :: i in s.path && s.path[i] == s.path[id] ==> i == id
  {
    hide Index.Valid, Index.Indexed, Partition, FreeChain, HashesOk, KindsOk, Rooted;
    forall i | i in s.path && s.path[i] == s.path[id]
      ensures i == id
    {
      PathInjective(s.entry, s.Live(), s.path, i, id);
    }
  }

  lemma StandingOf(t: Snapshot, t': Snapshot, visited: seq<nat>)
    requires |t'.entry| == |t.entry| && forall i :: 0 <= i < |t.entry| && i !in visited ==> t'.entry[i] == t.entry[i]
    requires forall i :: i in visited && i < |t'.entry| ==> t'.entry[i].name == ""
    requires forall i :: i in t.path && i != ROOT ==> i < |t.entry| && t.entry[i].name != ""
    requires ROOT !in visited
    ensures Standing(t, t') == t.path.Keys - Elements(visited)
  {
  }

  // ---------------------------------------------------------------- runs

  /** One operation: what it reads, and then its effect; or why mcachefs does not get through it. */
  method Perform(s: Store, op: Op) returns (sound: bool, ghost t: Snapshot)
    requires s.Valid() && WellFormed(op)
    modifies s, s.index
    ensures Reads(op, old(s.Now()), t)
    ensures sound ==> s.Valid() && Effect(op, old(s.Now()), t, s.Now())
    ensures !sound ==> Fails(op, old(s.Now()), t, s.Now())
  {
    hide Store.Valid, MakeEffect, DropEffect, RenameEffect, FetchEffect, Fails, Reads;
    t := s.Now();
    match op
    case Make(q, kind, disk) => sound, t := MakeAt(s, q, kind, disk);
    case Drop(q, isDir, disk) => sound, t := DropAt(s, q, isDir, disk);
    case Rename(q, to, disk) => sound, t := RenameAt(s, q, to, disk);
    case Fetch(q, disk) => sound, t := FetchAt(s, q, disk);
    case Flush(q) =>
      NoReading(q, t);
      sound := FlushAt(s, q);
  }

  lemma NoReading(q: string, t: Snapshot)
    ensures Reads(Flush(q), t, t)
  {
  }

  /** Each operation read what it was to read, and then had its effect. */
  ghost predicate Folds(ops: seq<Op>, trace: seq<Snapshot>, read: seq<Snapshot>) {
    && |trace| <= |ops| + 1 && |trace| - 1 <= |read|
    && forall k :: 0 <= k < |trace| - 1 ==> Reads(ops[k], trace[k], read[k]) && Effect(ops[k], trace[k], read[k], trace[k + 1])
  }

  /** Any run of operations on any store, such as a freshly formatted one: each reads what it was to read
      and then has its effect on what that left, and the store stays well-formed, up to the first operation
      that mcachefs fails on, of which the reason is given. `trace` lists the stores between the
      operations, `read` those after the reading of each. */
  method Run(s: Store, ops: seq<Op>) returns (done: nat, ghost trace: seq<Snapshot>, ghost read: seq<Snapshot>)
    requires s.Valid() && forall op :: op in ops ==> WellFormed(op)
    modifies s, s.index
    ensures done <= |ops| && |trace| == done + 1 && trace[0] == old(s.Now()) && Folds(ops, trace, read)
    ensures done == |ops| ==> s.Valid() && s.Now() == trace[done]
    ensures done < |ops| ==> |read| == done + 1 && Reads(ops[done], trace[done], read[done])
    ensures done < |ops| ==> Fails(ops[done], trace[done], read[done], s.Now())
  {
    hide Store.Valid, Effect, Fails, Reads, WellFormed;
    done, trace, read := 0, [s.Now()], [];
    while done < |ops|
      invariant done <= |ops| && s.Valid()
      invariant |trace| == done + 1 == |read| + 1 && trace[0] == old(s.Now())
      invariant Folds(ops, trace, read) && s.Now() == trace[done]
    {
      ghost var t;
      var sound;
      sound, t := Perform(s, ops[done]);
      read := read + [t];
      if !sound { return; }
      trace := trace + [s.Now()];
      done := done + 1;
    }
  }

  lemma KeepsKind(op: Op, t: Snapshot, t': Snapshot, t'': Snapshot, i: nat)
    requires Reads(op, t, t') && Effect(op, t, t', t'') && i in t.path && i in t''.path
    ensures t'' != t ==> i < |t.entry| && i < |t''.entry| && t''.entry[i].kind == t.entry[i].kind
  {
    hide Misses, Absent, Troubled, FatherMissing, FatherNoDirectory, Remote, AllRead, AllKnown, MayGo, ToRead, Above, Populated,
         WasRead, OnlyAbove, OnlyUpTo, ReadForRename, FromDisk, ReadWhole, PathsOk, Join;
  }

  /** No operation of a run turns an entry that stays into one of another kind. */
  lemma {:induction false} KindsLast(ops: seq<Op>, trace: seq<Snapshot>, read: seq<Snapshot>, a: nat, b: nat, i: nat)
    requires Folds(ops, trace, read) && a <= b < |trace| && forall k :: a <= k <= b ==> i in trace[k].path
    requires i < |trace[a].entry|
    ensures i < |trace[b].entry| && trace[b].entry[i].kind == trace[a].entry[i].kind
    decreases b
  {
    hide Reads, Effect;
    if a < b {
      KindsLast(ops, trace, read, a, b - 1, i);
      KeepsKind(ops[b - 1], trace[b - 1], read[b - 1], trace[b], i);
    }
  }

  /** What holds between any two operations of a run: every entry from 1 on is either in the tree
      below the root or on the free list; blocks are whole; the index holds exactly the entries of
      the tree, each under the hash of its full path. */
  lemma Accounted(s: Store)
    requires s.Valid()
    ensures |s.entry| % BLOCK == 0
    ensures forall i :: 0 < i < |s.entry| ==> (i in s.Live() <==> i !in s.free)
    ensures forall i :: i in s.Live() || i in s.free ==> 0 < i < |s.entry|
    ensures s.index.Indexed() == s.Live() == s.path.Keys
    ensures forall i :: i in s.Live() ==> i < |s.index.hash| && s.index.hash[i] == DoHash(s.path[i])
  {
  }

  /** The children of a directory, as its links list them, are exactly the entries that name it as
      their father. */
  lemma ListedChildren(s: Store, id: nat)
    requires s.Valid() && id in s.Live()
    ensures exists f: Forest, c: Spot ::
              f.Cons? && f.id == id && At(s.entry, c, f, id) && Fill(c, f) == s.dirs
              && forall i :: i in s.Live() ==> i < |s.entry| && (s.entry[i].father == id <==> i in Siblings(f.kids))
  {
    hide Index.Valid, Index.Indexed, Partition, FreeChain, HashesOk, KindsOk, PathsOk;
    var c, f := ChildList(s.entry, s.dirs, id);
  }

  /** The path the store finds an entry by is the one its father links spell: any assignment of
      paths to entries that follows the father links is the same. */
  lemma PathsOfLinks(s: Store, path: map<nat, string>)
    requires s.Valid() && PathsOk(s.entry, s.Live(), path)
    ensures path == s.path
  {
    forall i | i in s.Live()
      ensures path[i] == s.path[i]
    {
      PathUnique(s.entry, s.Live(), path, s.path, i);
    }
  }
}
