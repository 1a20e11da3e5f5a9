/** Logging local operations, and applying the log to the source: all changes of the tree first,
    all write-backs of file contents afterwards. */
module Journal {
  import opened JournalFile
  import opened Namespace
  import opened PathNames

  // ---------------------------------------------------------------- what the records mean

  /** The mode of a regular file. */
  predicate IsRegular(mode: nat) {
    mode / 0x1000 % 16 == 8
  }

  /** What applying a record does to the source; attributes are not part of this model. */
  function ChangeOf(r: Record): Change {
    if r.op == MKNOD then (if IsRegular(r.mode) then Mknod(r.path) else Mkspecial(r.path))
    else if r.op == MKDIR then Mkdir(r.path)
    else if r.op == UNLINK then Unlink(r.path)
    else if r.op == RMDIR then Rmdir(r.path)
    else if r.op == SYMLINK then Symlink(r.path, r.to)
    else if r.op == RENAME then Rename(r.path, r.to)
    else if r.op == TRUNCATE then Truncate(r.path, r.size)
    else Nothing
  }

  /** The source after all records but the write-backs were applied in their order. */
  ghost function Replay(fs: FS, s: seq<Record>): FS {
    if s == [] then fs else
      var last := s[|s| - 1];
      if last.op == FSYNC then Replay(fs, s[..|s| - 1]) else Do(Replay(fs, s[..|s| - 1]), ChangeOf(last))
  }

  /** What a record made of a tree `u`: told without the model of the operations. */
  ghost predicate Took(u: FS, u': FS, r: Record) {
    if r.op == MKNOD || r.op == MKDIR || r.op == SYMLINK then
      u' == if r.path in u || !Placed(u, r.path) then u else
              u[r.path := if r.op == MKDIR then Dir else if r.op == SYMLINK then Link(r.to)
                          else if r.mode / 0x1000 % 16 == 8 then File([]) else Special]
    else if r.op == UNLINK then
      u' == if r.path in u && (u[r.path].File? || u[r.path].Link?) then u - {r.path} else u
    else if r.op == RMDIR then
      u' == if r.path in u && u[r.path].Dir? && r.path != "/" && forall q :: q in u ==> !(r.path + "/" <= q)
            then u - {r.path} else u
    else if r.op == TRUNCATE && r.path in u && u[r.path].File? then
      r.path in u' && u'[r.path].File? && u' == u[r.path := u'[r.path]] && CutTo(u[r.path].content, r.size, u'[r.path].content)
    else if r.op == RENAME && MayMove(u, r.path, r.to) then HasMoved(u, u', r.path, r.to)
    else u' == u
  }

  lemma TakesAs(u: FS, r: Record)
    ensures Took(u, if r.op == FSYNC then u else Do(u, ChangeOf(r)), r)
  {
    hide MovedTree, Placed, InDir, MayMove, CanRename, HasMoved, CutTo, Resized;
    InDirMeans(u, r.path);
    RenameMeans(u, r.path, r.to);
    if r.path in u && u[r.path].File? { ResizedMeans(u[r.path].content, r.size); }
  }

  /** The files to be written back, in their order. */
  ghost function WriteBacks(s: seq<Record>): seq<string> {
    if s == [] then [] else
      var last := s[|s| - 1];
      WriteBacks(s[..|s| - 1]) + if last.op == FSYNC then [last.path] else []
  }

  ghost function Pending(s: seq<Record>): set<string> {
    set i | 0 <= i < |s| && s[i].op == FSYNC :: s[i].path
  }

  lemma {:induction false} PendingWriteBacks(s: seq<Record>)
    ensures forall p :: p in WriteBacks(s) <==> p in Pending(s)
  {
    if s != [] {
      var t := s[..|s| - 1];
      PendingWriteBacks(t);
      PendingMore(t, s[|s| - 1]);
      assert s == t + [s[|s| - 1]];
    }
  }

  lemma PendingMore(s: seq<Record>, r: Record)
    ensures Pending(s + [r]) == Pending(s) + if r.op == FSYNC then {r.path} else {}
  {
    var s' := s + [r];
    forall p | p in Pending(s)
      ensures p in Pending(s')
    {
      var i :| 0 <= i < |s| && s[i].op == FSYNC && s[i].path == p;
      assert s'[i] == s[i];
    }
    if r.op == FSYNC {
      assert s'[|s|] == r;
    }
  }

  lemma ReplayMore(fs: FS, s: seq<Record>, r: Record)
    ensures Replay(fs, s + [r]) == if r.op == FSYNC then Replay(fs, s) else Do(Replay(fs, s), ChangeOf(r))
  {
    assert (s + [r])[..|s|] == s;
  }

  // ---------------------------------------------------------------- where a content comes from

  /** A replayed file was made on the way, or its content goes back to the file at `origin`, of which
      never less than `low` bytes were left. */
  datatype Past = Born | From(origin: string, low: nat)

  ghost function PastOf(fs: FS, s: seq<Record>, p: string): Past
    requires p in Replay(fs, s) && Replay(fs, s)[p].File?
    decreases |s|
  {
    if s == [] then From(p, |fs[p].content|) else
      var t, last := s[..|s| - 1], s[|s| - 1];
      var u, ch := Replay(fs, t), ChangeOf(last);
      if last.op == FSYNC || !Applies(u, ch) then PastOf(fs, t, p)
      else if Creates(ch, p) then Born
      else
        DoneAt(u, ch, p);
        var past := PastOf(fs, t, Before(u, ch, p));
        if ch.Truncate? && ch.path == p && past.From? && ch.size < past.low then past.(low := ch.size) else past
  }

  /** The content a file of this past has, at its present size. */
  ghost function Aged(fs: FS, past: Past, size: nat): seq<byte> {
    if past.From? && past.origin in fs && fs[past.origin].File? && past.low <= |fs[past.origin].content| then
      Resized(fs[past.origin].content[..past.low], size)
    else Resized([], size)
  }

  lemma CutAgain(s: seq<byte>, low: nat, m: nat, n: nat)
    requires low <= |s| && low <= m
    ensures Resized(Resized(s[..low], m), n) == if n < low then Resized(s[..n], n) else Resized(s[..low], n)
  {
  }

  /** Replaying gives each file the content of its past. */
  lemma {:induction false} PastContent(fs: FS, s: seq<Record>, p: string)
    requires p in Replay(fs, s) && Replay(fs, s)[p].File?
    ensures
      var past := PastOf(fs, s, p); var now := Replay(fs, s)[p].content;
      && now == Aged(fs, past, |now|)
      && (past.From? ==> past.origin in fs && fs[past.origin].File? && past.low <= |fs[past.origin].content| && past.low <= |now|)
    decreases |s|
  {
    if s != [] {
      var t, last := s[..|s| - 1], s[|s| - 1];
      var u, ch := Replay(fs, t), ChangeOf(last);
      if last.op == FSYNC || !Applies(u, ch) {
        PastContent(fs, t, p);
      } else if Creates(ch, p) {
        MadeAt(u, ch);
      } else {
        DoneAt(u, ch, p);
        var q := Before(u, ch, p);
        PastContent(fs, t, q);
        var past := PastOf(fs, t, q);
        if ch.Truncate? && ch.path == p && past.From? {
          CutAgain(fs[past.origin].content, past.low, |u[q].content|, ch.size);
        }
      }
    }
  }

  // ---------------------------------------------------------------- renaming

  function RenameRecord(from: string, to: string): Record {
    Record(RENAME, from, to, 0, 0, 0, 0, 0, 0, 0)
  }

  /** A pending write-back whose path begins with the characters of `from` gets that part replaced. */
  function Altered(r: Record, from: string, to: string): Record {
    if r.op == FSYNC && from <= r.path then r.(path := to + r.path[|from|..]) else r
  }

  function Rewritten(s: seq<Record>, from: string, to: string): (r: seq<Record>)
    ensures |r| == |s|
  {
    seq(|s|, i requires 0 <= i < |s| => Altered(s[i], from, to))
  }

  /** The path begins with the characters of `from`, but goes on within the same name. */
  predicate SplitsName(from: string, p: string) {
    from <= p && p != from && p[|from|] != '/'
  }

  ghost predicate NoNameSplit(s: seq<Record>, from: string) {
    forall p :: p in Pending(s) ==> !SplitsName(from, p)
  }

  lemma PrefixWithin(from: string, p: string)
    requires from <= p
    ensures Within(from, p) <==> !SplitsName(from, p)
  {
    if p != from {
      assert p[..|from| + 1] == from + [p[|from|]];
      assert (from + "/")[|from|] == '/';
    }
  }

  /** The rewriting of one path follows the renaming exactly if it does not split a name. */
  lemma AlteredPath(r: Record, from: string, to: string)
    requires r.op == FSYNC && from != to
    ensures Altered(r, from, to).path == Relocated(r.path, from, to) <==> !SplitsName(from, r.path)
  {
    if from <= r.path {
      PrefixWithin(from, r.path);
      if SplitsName(from, r.path) {
        assert r.path == from + r.path[|from|..];
        if to + r.path[|from|..] == r.path { SameTail(from, to, r.path[|from|..]); }
      }
    }
  }

  lemma SameTail(a: string, b: string, t: string)
    requires a + t == b + t
    ensures a == b
  {
    assert |a| == |b|;
    assert (a + t)[..|a|] == a && (b + t)[..|b|] == b;
  }

  /** The rewriting keeps the number, order and kinds of the records, all other fields, and all
      records but pending write-backs. */
  lemma RewrittenElsewhere(s: seq<Record>, from: string, to: string, i: nat)
    requires i < |s|
    ensures Rewritten(s, from, to)[i] == Altered(s[i], from, to)
    ensures Rewritten(s, from, to)[i].(path := s[i].path) == s[i]
    ensures s[i].op != FSYNC ==> Rewritten(s, from, to)[i] == s[i]
  {
  }

  lemma RewrittenMore(s: seq<Record>, r: Record, from: string, to: string)
    ensures Rewritten(s + [r], from, to) == Rewritten(s, from, to) + [Altered(r, from, to)]
  {
  }

  /** The rewriting does not touch what changes the tree. */
  lemma {:induction false} ReplayRewritten(fs: FS, s: seq<Record>, from: string, to: string)
    ensures Replay(fs, Rewritten(s, from, to)) == Replay(fs, s)
  {
    if s != [] {
      var t := s[..|s| - 1];
      assert s == t + [s[|s| - 1]];
      RewrittenMore(t, s[|s| - 1], from, to);
      ReplayRewritten(fs, t, from, to);
      ReplayMore(fs, t, s[|s| - 1]);
      ReplayMore(fs, Rewritten(t, from, to), Altered(s[|s| - 1], from, to));
    }
  }

  ghost function MovedSet(s: set<string>, from: string, to: string): set<string> {
    set p | p in s :: Relocated(p, from, to)
  }

  /** Without split names the pending files follow the renaming. */
  lemma PendingRewritten(s: seq<Record>, from: string, to: string)
    requires NoNameSplit(s, from) && from != to
    ensures Pending(Rewritten(s, from, to)) == MovedSet(Pending(s), from, to)
  {
    var s' := Rewritten(s, from, to);
    forall i | 0 <= i < |s| && s[i].op == FSYNC
      ensures s'[i].path == Relocated(s[i].path, from, to) && s[i].path in Pending(s)
      ensures s'[i].path in Pending(s') && s'[i].path in MovedSet(Pending(s), from, to)
    {
      assert s[i].path in Pending(s);
      AlteredPath(s[i], from, to);
    }
  }

  /** The rewriting follows the renaming for every pending file exactly if the renamed path splits
      none of their names. */
  lemma RewritingExact(s: seq<Record>, from: string, to: string)
    requires from != to
    ensures
      (forall i :: 0 <= i < |s| && s[i].op == FSYNC ==> Rewritten(s, from, to)[i].path == Relocated(s[i].path, from, to))
      <==> NoNameSplit(s, from)
  {
    forall i | 0 <= i < |s| && s[i].op == FSYNC
      ensures s[i].path in Pending(s)
      ensures Rewritten(s, from, to)[i].path == Relocated(s[i].path, from, to) <==> !SplitsName(from, s[i].path)
    {
      AlteredPath(s[i], from, to);
    }
  }

  // ---------------------------------------------------------------- writing back

  /** What a file holds after another content was copied over its beginning. */
  function Overlaid(before: seq<byte>, copied: seq<byte>): seq<byte> {
    if |before| <= |copied| then copied else copied + before[|copied|..]
  }

  /** Copies the cached content over the file in the source, without cutting it. */
  function WriteBack(fs: FS, cache: FS, p: string): FS {
    if p in fs && p in cache && fs[p].File? && cache[p].File? then
      fs[p := File(Overlaid(fs[p].content, cache[p].content))]
    else fs
  }

  function WriteBackAll(fs: FS, cache: FS, s: seq<string>): FS {
    if s == [] then fs else WriteBack(WriteBackAll(fs, cache, s[..|s| - 1]), cache, s[|s| - 1])
  }

  lemma {:induction false} WriteBackAt(u: FS, cache: FS, s: seq<string>, p: string)
    requires p in u
    ensures p in WriteBackAll(u, cache, s)
    ensures WriteBackAll(u, cache, s)[p] ==
      if p in s && p in cache && u[p].File? && cache[p].File? then File(Overlaid(u[p].content, cache[p].content)) else u[p]
  {
    if s != [] {
      var t := s[..|s| - 1];
      WriteBackAt(u, cache, t, p);
      assert s == t + [s[|s| - 1]];
    }
  }

  lemma {:induction false} WriteBackKeys(u: FS, cache: FS, s: seq<string>)
    ensures WriteBackAll(u, cache, s).Keys == u.Keys
  {
    if s != [] {
      WriteBackKeys(u, cache, s[..|s| - 1]);
    }
  }

  /** The files that records ask to be written back begin with what is cached of them, and go on as they
      did in `u`; all else is as in `u`. */
  ghost predicate WrittenBack(u: FS, u': FS, cache: FS, s: seq<Record>) {
    && u'.Keys == u.Keys
    && forall p :: p in u && p in u' ==>
         if (exists k :: 0 <= k < |s| && s[k].op == FSYNC && s[k].path == p) && p in cache && u[p].File? && cache[p].File? then
           var c, was := cache[p].content, u[p].content;
           && u'[p].File? && |u'[p].content| == (if |c| < |was| then |was| else |c|)
           && forall i :: 0 <= i < |u'[p].content| ==> u'[p].content[i] == if i < |c| then c[i] else was[i]
         else u'[p] == u[p]
  }

  lemma WritesBack(u: FS, cache: FS, s: seq<Record>)
    ensures WrittenBack(u, WriteBackAll(u, cache, WriteBacks(s)), cache, s)
  {
    hide WriteBackAll, WriteBacks;
    WriteBackKeys(u, cache, WriteBacks(s));
    PendingWriteBacks(s);
    forall p | p in u
      ensures p in WriteBackAll(u, cache, WriteBacks(s))
      ensures p in WriteBacks(s) <==> exists k :: 0 <= k < |s| && s[k].op == FSYNC && s[k].path == p
      ensures WriteBackAll(u, cache, WriteBacks(s))[p] ==
              if p in WriteBacks(s) && p in cache && u[p].File? && cache[p].File? then
                File(Overlaid(u[p].content, cache[p].content)) else u[p]
    {
      WriteBackAt(u, cache, WriteBacks(s), p);
    }
  }

  // ---------------------------------------------------------------- a source that lags behind a view

  /** The view shows the cached files; all else is as in the source `u`. */
  ghost predicate Consistent(u: FS, view: FS, cache: FS) {
    && SameShape(u, view) && Cached(view, cache)
    && forall p :: p in u && p in view && p !in cache ==> u[p] == view[p]
  }

  /** The content `u` becomes what is shown: it is that already, or once the cached content was
      copied over it. */
  ghost predicate Catches(u: seq<byte>, shown: seq<byte>, cached: seq<byte>, pending: bool) {
    (if pending then Overlaid(u, cached) else u) == shown
  }

  /** Whether the cached file at `p`, of which `pending` tells whether it is to be written back, ends
      up as it is shown. */
  ghost predicate CatchesUp(u: FS, view: FS, cache: FS, p: string, pending: bool) {
    p in u && p in view && p in cache && u[p].File? && view[p].File? && cache[p].File? &&
    Catches(u[p].content, view[p].content, cache[p].content, pending)
  }

  ghost predicate InStep(u: FS, view: FS, cache: FS, pending: set<string>) {
    forall p :: p in cache ==> CatchesUp(u, view, cache, p, p in pending)
  }

  /** Writing back the pending files makes the source equal to the view exactly if each cached file
      catches up. */
  lemma CaughtUp(u: FS, view: FS, cache: FS, s: seq<string>)
    requires Consistent(u, view, cache)
    ensures WriteBackAll(u, cache, s) == view <==> InStep(u, view, cache, set p | p in s)
  {
    WriteBackKeys(u, cache, s);
    forall p | p in u && p in view
      ensures p in WriteBackAll(u, cache, s)
      ensures WriteBackAll(u, cache, s)[p] == view[p] <==> (p in cache ==> CatchesUp(u, view, cache, p, p in s))
    {
      WriteBackAt(u, cache, s, p);
    }
  }

  /** A content that is up to date stays so when it is written back. */
  lemma PendingToo(u: seq<byte>, shown: seq<byte>, cached: seq<byte>)
    requires Catches(u, shown, cached, false) && Shows(cached, shown)
    ensures Catches(u, shown, cached, true)
  {
  }

  lemma CutCatches(u: seq<byte>, shown: seq<byte>, cached: seq<byte>, pending: bool, n: nat)
    requires Catches(u, shown, cached, pending) && Shows(cached, shown)
    ensures Catches(Resized(u, n), Resized(shown, n), Resized(cached, n), pending)
  {
  }

  lemma ConsistentKept(u: FS, view: FS, cache: FS, ch: Change)
    requires Consistent(u, view, cache) && Applies(view, ch)
    ensures Consistent(Do(u, ch), Do(view, ch), DoCached(cache, ch))
  {
    hide Do, Applies, Before, DoCached;
    ShapeKept(u, view, ch);
    CachedKept(view, cache, ch);
    forall q | q in Do(u, ch) && q in Do(view, ch) && q !in DoCached(cache, ch)
      ensures Do(u, ch)[q] == Do(view, ch)[q]
    {
      SameDone(u, view, ch, q);
      CachedAt(view, cache, ch, q);
    }
  }

  /** The operations keep a source and a view in step, success and failure included. */
  lemma StepKept(u: FS, view: FS, cache: FS, pending: set<string>, ch: Change)
    requires Consistent(u, view, cache) && Applies(view, ch) && !ch.Rename?
    requires InStep(u, view, cache, pending)
    ensures InStep(Do(u, ch), Do(view, ch), DoCached(cache, ch), pending)
  {
    hide Do, Applies, DoCached, Catches;
    forall q | q in DoCached(cache, ch)
      ensures CatchesUp(Do(u, ch), Do(view, ch), DoCached(cache, ch), q, q in pending)
    {
      NoneElse(view, cache, ch, q);
      SameDone(u, view, ch, q);
      CachedAt(view, cache, ch, q);
      if Creates(ch, q) {
        MadeAt(view, ch);
        NothingToCatch(q in pending);
      } else {
        assert CatchesUp(u, view, cache, q, q in pending);
        if ch.Truncate? { CutCatches(u[q].content, view[q].content, cache[q].content, q in pending, ch.size); }
      }
    }
  }

  lemma NothingToCatch(pending: bool)
    ensures Catches([], [], [], pending)
  {
  }

  /** After a renaming, a cached file catches up if it was up to date or is to be written back under
      its new name. */
  ghost predicate Survives(u: FS, view: FS, cache: FS, pending: set<string>, from: string, to: string, p: string) {
    CatchesUp(u, view, cache, p, Relocated(p, from, to) in pending)
  }

  lemma StepRenamed(u: FS, view: FS, cache: FS, pending: set<string>, from: string, to: string)
    requires Consistent(u, view, cache) && CanRename(view, from, to)
    ensures InStep(MovedTree(u, from, to), MovedTree(view, from, to), MovedTree(cache, from, to), pending) <==>
            forall p :: p in cache ==> Survives(u, view, cache, pending, from, to, p)
  {
    hide MovedTree, Within, Catches, Relocated;
    var u', view', cache' := MovedTree(u, from, to), MovedTree(view, from, to), MovedTree(cache, from, to);
    assert forall q :: q in u ==> q in view;
    forall p | p in cache
      ensures
        var q := Relocated(p, from, to);
        && q in cache' && CatchesUp(u', view', cache', q, q in pending) == Survives(u, view, cache, pending, from, to, p)
    {
      MovedAt(u, from, to, p);
      MovedAt(view, from, to, p);
      MovedAt(cache, from, to, p);
    }
    forall q | q in cache'
      ensures exists p :: p in cache && Relocated(p, from, to) == q
    {
      MovedFrom(cache, from, to, q);
    }
  }

  /** A renaming that splits no pending name keeps all in step. */
  lemma RenamedInStep(u: FS, view: FS, cache: FS, s: seq<Record>, from: string, to: string)
    requires Consistent(u, view, cache) && InStep(u, view, cache, Pending(s)) && NoNameSplit(s, from) && from != to
    ensures forall p :: p in cache ==> Survives(u, view, cache, Pending(Rewritten(s, from, to)), from, to, p)
  {
    hide Pending, Rewritten, Relocated, Catches, NoNameSplit;
    PendingRewritten(s, from, to);
    forall p | p in cache
      ensures Survives(u, view, cache, Pending(Rewritten(s, from, to)), from, to, p)
    {
      assert CatchesUp(u, view, cache, p, p in Pending(s));
      if p in Pending(s) {
        assert Relocated(p, from, to) in MovedSet(Pending(s), from, to);
      } else {
        PendingToo(u[p].content, view[p].content, cache[p].content);
      }
    }
  }

  // ---------------------------------------------------------------- copying a file into the cache

  function Smaller(a: nat, b: nat): nat {
    if a < b then a else b
  }

  /** Copying the file at `p` from a source that was not replayed yet gives what replaying will. */
  ghost predicate Harmless(source: FS, past: Past, p: string, size: nat, pending: bool) {
    && p in source && source[p].File?
    && var have := source[p].content;
       Catches(Aged(source, past, size), Resized(have, size), have[..Smaller(size, |have|)], pending)
  }

  /** The cache gets what the source has of the file, as far as the size of the file goes. */
  lemma StepOpened(u: FS, view: FS, cache: FS, pending: set<string>, p: string, have: seq<byte>)
    requires Consistent(u, view, cache) && p in view && view[p].File? && p !in cache
    ensures u.Keys == view.Keys && u[p] == view[p]
    ensures
      var size := |view[p].content|;
      var view', cache' := view[p := File(Resized(have, size))], cache[p := File(have[..Smaller(size, |have|)])];
      && Consistent(u, view', cache')
      && (InStep(u, view, cache, pending) ==>
            (InStep(u, view', cache', pending) <==>
             Catches(u[p].content, Resized(have, size), have[..Smaller(size, |have|)], p in pending)))
  {
    hide Catches;
    var size := |view[p].content|;
    var view', cache' := view[p := File(Resized(have, size))], cache[p := File(have[..Smaller(size, |have|)])];
    forall q | q in cache
      ensures CatchesUp(u, view', cache', q, q in pending) <==> CatchesUp(u, view, cache, q, q in pending)
    {
    }
  }

  /** A file that never changed its name is copied right exactly if it is to be written back anyway,
      or no byte but zeros was cut off it and grown over again. */
  lemma CutAndGrown(source: FS, low: nat, p: string, size: nat, pending: bool)
    requires p in source && source[p].File? && low <= |source[p].content| && low <= size
    ensures Harmless(source, From(p, low), p, size, pending) <==>
            pending || forall i :: low <= i < |source[p].content| && i < size ==> source[p].content[i] == 0
  {
    var have := source[p].content;
    var now, shown, copied := Aged(source, From(p, low), size), Resized(have, size), have[..Smaller(size, |have|)];
    if pending {
      assert Overlaid(now, copied) == shown;
    } else if forall i :: low <= i < |have| && i < size ==> have[i] == 0 {
      assert now == shown;
    } else {
      var i :| low <= i < |have| && i < size && have[i] != 0;
      assert now[i] == 0 && shown[i] == have[i];
    }
  }
}
