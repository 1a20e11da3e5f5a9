/** The local file system: what it shows, what it caches, what it logs, and what applying the log
    makes of the source. */
module LocalFs {
  import opened Journal
  import opened JournalFile
  import opened Namespace
  import opened PathNames

  /** The journal file, which need not be there. */
  class Log {
    var present: bool
    var data: seq<byte>

    constructor ()
      ensures data == [] && !present
    {
      data, present := [], false;
    }

    /** The file holds the records `s`, and nothing else. */
    ghost predicate Holds(s: seq<Record>)
      reads this
    {
      AllEncodable(s) && data == EncodeAll(s) && (!present ==> s == [])
    }

    method AppendEntry(r: Record)
      modifies this
      ensures data == old(data) + Encode(r) && present == old(present)
    {
      data := data + Header(r);
      data := data + Bytes(r.path);
      if |r.to| != 0 {
        data := data + Bytes(r.to);
      }
    }

    /** Rewrites the journal for a renaming, whose own record goes to its end. */
    method Rebuild(from: string, to: string, ghost s: seq<Record>) returns (ok: bool)
      requires Holds(s) && present && AllEncodable(Rewritten(s, from, to)) && Encodable(RenameRecord(from, to))
      modifies this
      ensures ok && present && Holds(Rewritten(s, from, to) + [RenameRecord(from, to)])
    {
      hide Rewritten, Encode, Encodable, NextEntry;
      var errno: nat := *;
      var source := new Reader(data, errno);
      var target := new Log();
      ghost var k := 0;
      RestOf(s, 0);
      while true
        invariant 0 <= k <= |s| && source.rest == EncodeAll(s[k..]) && fresh(source) && fresh(target) && present
        invariant target.data == EncodeAll(Rewritten(s, from, to)[..k])
        decreases |s| - k
      {
        NextRecord(s, k, errno);
        var e := source.ReadEntry();
        if e.Broken? { return false; }
        if e.End? { break; }
        if e.record.op == FSYNC && from <= e.record.path {
          target.AppendEntry(e.record.(path := to + e.record.path[|from|..]));
        } else {
          target.AppendEntry(e.record);
        }
        RewrittenElsewhere(s, from, to, k);
        Longer(Rewritten(s, from, to), k);
        k := k + 1;
      }
      target.AppendEntry(RenameRecord(from, to));
      EncodeAllOne(Rewritten(s, from, to), RenameRecord(from, to));
      assert Rewritten(s, from, to)[..|s|] == Rewritten(s, from, to);
      data := target.data;
      ok := true;
    }

    /** Logs an operation, in a new journal if there is none; a renaming rewrites one that is not empty. */
    method Append(r: Record, ghost s: seq<Record>)
      requires Holds(s) && Encodable(r)
      requires r.op == RENAME ==> r == RenameRecord(r.path, r.to) && AllEncodable(Rewritten(s, r.path, r.to))
      modifies this
      ensures present && Holds((if r.op == RENAME then Rewritten(s, r.path, r.to) else s) + [r])
    {
      NoRecords(s);
      if r.op == RENAME && present && data != [] {
        var ok := Rebuild(r.path, r.to, s);
        return;
      }
      present := true;
      EncodeAllOne(s, r);
      AppendEntry(r);
    }
  }

  lemma RestOf(s: seq<Record>, k: nat)
    requires k <= |s|
    ensures k == 0 ==> s[k..] == s
  {
  }

  lemma NextRecord(s: seq<Record>, k: nat, errno: nat)
    requires AllEncodable(s) && k <= |s|
    ensures NextEntry(EncodeAll(s[k..]), errno) ==
      if k < |s| then (Entry(s[k]), EncodeAll(s[k + 1..])) else (End, [])
  {
    if k < |s| {
      assert s[k..][1..] == s[k + 1..];
      EntryRead(s[k], EncodeAll(s[k + 1..]), errno);
    }
  }

  lemma Longer(s: seq<Record>, k: nat)
    requires k < |s|
    ensures EncodeAll(s[..k + 1]) == EncodeAll(s[..k]) + Encode(s[k])
  {
    assert s[..k + 1] == s[..k] + [s[k]];
    EncodeAllOne(s[..k], s[k]);
  }

  lemma EmptyLog(log: Log)
    requires log.data == []
    ensures log.Holds([])
  {
  }

  lemma NoRecords(s: seq<Record>)
    ensures EncodeAll(s) == [] <==> s == []
  {
    if s != [] {
      assert |Encode(s[0])| > 0;
    }
  }

  /** The trees between the records of a journal: each record was taken as it says. */
  ghost predicate TookAll(before: FS, trace: seq<FS>, after: FS, s: seq<Record>) {
    && |trace| == |s| + 1 && trace[0] == before && trace[|s|] == after
    && forall k :: 0 <= k < |s| ==> Took(trace[k], trace[k + 1], s[k])
  }

  /** The source tree. */
  class Source {
    var fs: FS

    constructor (fs0: FS)
      ensures fs == fs0
    {
      fs := fs0;
    }

    /** Applies all records but the write-backs, one after the other, if there is a journal. `trace` lists
        the trees on the way. */
    method ApplyUpdates(log: Log, ghost s: seq<Record>) returns (ok: bool, ghost trace: seq<FS>)
      requires log.Holds(s)
      modifies this
      ensures ok == log.present && fs == if ok then Replay(old(fs), s) else old(fs)
      ensures ok ==> |trace| == |s| + 1 && trace[|s|] == fs && TookAll(old(fs), trace, fs, s)
    {
      hide Do, ChangeOf, NextEntry, EncodeAll, AllEncodable, Took;
      trace := [fs];
      if !log.present { return false, trace; }
      var errno: nat := *;
      var file := new Reader(log.data, errno);
      ghost var k := 0;
      RestOf(s, 0);
      while true
        invariant 0 <= k <= |s| && file.rest == EncodeAll(s[k..]) && fresh(file)
        invariant fs == Replay(old(fs), s[..k])
        invariant TookAll(old(fs), trace, fs, s[..k])
        decreases |s| - k
      {
        NextRecord(s, k, errno);
        var e := file.ReadEntry();
        if e.Broken? { return false, trace; }
        if e.End? { break; }
        assert s[..k + 1] == s[..k] + [s[k]];
        ReplayMore(old(fs), s[..k], s[k]);
        TakesAs(fs, s[k]);
        if e.record.op != FSYNC {
          fs := Do(fs, ChangeOf(e.record));
        }
        trace := trace + [fs];
        k := k + 1;
      }
      assert s[..|s|] == s;
      ok := true;
    }

    /** Asks for the write-backs, in their order: `at` tells where in the journal each stands. */
    method ApplyFsync(log: Log, ghost s: seq<Record>) returns (ok: bool, asked: seq<string>, ghost at: seq<nat>)
      requires log.Holds(s) && log.present
      ensures ok && asked == WriteBacks(s)
      ensures |at| == |asked| && forall j :: 0 <= j < |at| ==> at[j] < |s| && s[at[j]].op == FSYNC && s[at[j]].path == asked[j]
      ensures forall i, j :: 0 <= i < j < |at| ==> at[i] < at[j]
      ensures forall k :: 0 <= k < |s| && s[k].op == FSYNC ==> k in at
    {
      hide NextEntry, EncodeAll, AllEncodable;
      var errno: nat := *;
      var file := new Reader(log.data, errno);
      asked, at := [], [];
      ghost var k := 0;
      RestOf(s, 0);
      while true
        invariant 0 <= k <= |s| && file.rest == EncodeAll(s[k..]) && fresh(file)
        invariant asked == WriteBacks(s[..k])
        invariant |at| == |asked| && forall j :: 0 <= j < |at| ==> at[j] < k && s[at[j]].op == FSYNC && s[at[j]].path == asked[j]
        invariant forall i, j :: 0 <= i < j < |at| ==> at[i] < at[j]
        invariant forall i :: 0 <= i < k && s[i].op == FSYNC ==> i in at
        decreases |s| - k
      {
        NextRecord(s, k, errno);
        var e := file.ReadEntry();
        if e.Broken? { return false, asked, at; }
        if e.End? { break; }
        assert s[..k + 1][..k] == s[..k];
        if e.record.op == FSYNC {
          asked, at := asked + [e.record.path], at + [k];
        }
        k := k + 1;
      }
      assert s[..|s|] == s;
      ok := true;
    }

    /** Copies the cached files over, one after the other. One that is not cached is refused. */
    method CopyBack(cache: FS, asked: seq<string>)
      modifies this
      ensures fs == WriteBackAll(old(fs), cache, asked)
    {
      for k := 0 to |asked|
        invariant fs == WriteBackAll(old(fs), cache, asked[..k])
      {
        assert asked[..k + 1][..k] == asked[..k];
        fs := WriteBack(fs, cache, asked[k]);
      }
      assert asked[..|asked|] == asked;
    }
  }

  // ---------------------------------------------------------------- open files

  /** An open file; `attached` as long as its entry was not unlinked, `ready` if it could be cached. */
  datatype Handle = Handle(path: string, attached: bool, dirty: bool, ready: bool)

  /** Content with `buf` written at `offset`, zeros filling a gap. */
  function Spliced(s: seq<byte>, offset: nat, buf: seq<byte>): (r: seq<byte>)
    ensures |r| >= |s| && |r| >= offset + |buf|
    ensures r[offset..offset + |buf|] == buf
  {
    var padded := if |s| < offset + |buf| then Resized(s, offset + |buf|) else s;
    padded[..offset] + buf + padded[offset + |buf|..]
  }

  /** Files held open are cached, unless that failed; then they were never written. */
  ghost predicate HandlesOk(handles: map<nat, Handle>, cache: FS) {
    && (forall h :: h in handles && handles[h].attached && handles[h].ready ==> handles[h].path in cache)
    && (forall h :: h in handles && handles[h].attached && handles[h].dirty ==> handles[h].ready)
  }

  /** Handles of an unlinked file lose it. */
  function Detached(handles: map<nat, Handle>, p: string): map<nat, Handle> {
    map h | h in handles :: if handles[h].path == p then handles[h].(attached := false) else handles[h]
  }

  /** Handles of renamed files follow them. */
  function Followed(handles: map<nat, Handle>, from: string, to: string): map<nat, Handle> {
    map h | h in handles ::
      if handles[h].attached then handles[h].(path := Relocated(handles[h].path, from, to)) else handles[h]
  }

  ghost predicate AnyDirty(handles: map<nat, Handle>) {
    exists h :: h in handles && handles[h].attached && handles[h].ready && handles[h].dirty
  }

  /** The handle was written through, so that it logs no more, but its file is not pending. */
  ghost predicate Forgotten(h: Handle, pending: set<string>) {
    h.attached && h.ready && h.dirty && h.path !in pending
  }

  ghost predicate AllLogged(handles: map<nat, Handle>, pending: set<string>) {
    forall h :: h in handles ==> !Forgotten(handles[h], pending)
  }

  function Plain(op: nat, p: string, to: string, size: nat): Record {
    Record(op, p, to, 0, 0, 0, 0, size, 0, 0)
  }

  /** What the operation does to the open files. */
  function DoOpen(handles: map<nat, Handle>, ch: Change): map<nat, Handle> {
    match ch
    case Unlink(p) => Detached(handles, p)
    case Rename(p, to) => Followed(handles, p, to)
    case _ => handles
  }

  lemma HandlesKept(handles: map<nat, Handle>, cache: FS, pending: set<string>, ch: Change)
    requires HandlesOk(handles, cache) && !ch.Rename?
    ensures HandlesOk(DoOpen(handles, ch), DoCached(cache, ch))
    ensures AllLogged(handles, pending) ==> AllLogged(DoOpen(handles, ch), pending)
  {
  }

  /** Open files follow a renaming. */
  lemma HandlesFollow(handles: map<nat, Handle>, cache: FS, pending: set<string>, from: string, to: string)
    requires HandlesOk(handles, cache) && forall q :: q in cache ==> !Within(to, q)
    ensures HandlesOk(Followed(handles, from, to), MovedTree(cache, from, to))
    ensures AllLogged(handles, pending) ==> AllLogged(Followed(handles, from, to), MovedSet(pending, from, to))
  {
    forall h | h in handles && handles[h].attached && handles[h].ready
      ensures Relocated(handles[h].path, from, to) in MovedTree(cache, from, to)
      ensures handles[h].path in pending ==> Relocated(handles[h].path, from, to) in MovedSet(pending, from, to)
    {
      MovedAt(cache, from, to, handles[h].path);
    }
    if AllLogged(handles, pending) {
      forall h | h in handles
        ensures !Forgotten(Followed(handles, from, to)[h], MovedSet(pending, from, to))
      {
        assert !Forgotten(handles[h], pending);
      }
    }
  }

  /** The file at `p` is cut or filled up to `size` bytes; everything else is as it was. */
  ghost predicate HasCut(was: FS, now: FS, p: string, size: nat) {
    && p in was && was[p].File? && p in now && now[p].File? && now == was[p := now[p]]
    && CutTo(was[p].content, size, now[p].content)
  }

  lemma TruncateMeans(view: FS, cache: FS, p: string, size: nat)
    requires Cached(view, cache)
    ensures
      var ch := Change.Truncate(p, size);
      && (Applies(view, ch) <==> p in view && view[p].File?)
      && (if Applies(view, ch) then HasCut(view, Do(view, ch), p, size) else Do(view, ch) == view)
      && (if p in cache then HasCut(cache, DoCached(cache, ch), p, size) else DoCached(cache, ch) == cache)
  {
    hide Resized, CutTo, Shows;
    if p in view && view[p].File? { ResizedMeans(view[p].content, size); }
    if p in cache { ResizedMeans(cache[p].content, size); }
  }

  /** Open handles follow a renaming. */
  ghost predicate HaveFollowed(was: map<nat, Handle>, now: map<nat, Handle>, from: string, to: string) {
    && now.Keys == was.Keys
    && forall h :: h in was && h in now ==>
         now[h] == if !was[h].attached then was[h] else if was[h].path == from then was[h].(path := to)
                   else if from + "/" <= was[h].path then was[h].(path := to + was[h].path[|from|..]) else was[h]
  }

  /** The journal has one record more, and in those of write-backs the characters of `from` at the
      beginning of the path are replaced. */
  ghost predicate HaveBeenRewritten(was: seq<Record>, now: seq<Record>, from: string, to: string) {
    && |now| == |was| + 1 && now[|was|] == Record(RENAME, from, to, 0, 0, 0, 0, 0, 0, 0)
    && forall k :: 0 <= k < |was| ==>
         now[k] == if was[k].op == FSYNC && from <= was[k].path then was[k].(path := to + was[k].path[|from|..]) else was[k]
  }

  /** Handles on an unlinked entry are cut off from it. */
  ghost predicate HaveLost(was: map<nat, Handle>, now: map<nat, Handle>, p: string) {
    && now.Keys == was.Keys
    && forall h :: h in was && h in now ==> now[h] == if was[h].path == p then was[h].(attached := false) else was[h]
  }

  lemma MakeMeans(view: FS, cache: FS, handles: map<nat, Handle>, ch: Change)
    requires ch.Mknod? || ch.Mkspecial? || ch.Mkdir? || ch.Symlink?
    ensures Applies(view, ch) <==> ch.path !in view && Placed(view, ch.path)
    ensures
      Do(view, ch) ==
      if !Applies(view, ch) then view else
        view[ch.path := if ch.Mknod? then File([]) else if ch.Mkspecial? then Special else if ch.Mkdir? then Dir else Link(ch.target)]
    ensures DoCached(cache, ch) == (if ch.Mknod? then cache[ch.path := File([])] else cache) && DoOpen(handles, ch) == handles
  {
    hide Placed, InDir;
    InDirMeans(view, ch.path);
  }

  lemma RmdirMeans(view: FS, cache: FS, handles: map<nat, Handle>, p: string)
    ensures
      var ch := Change.Rmdir(p);
      && (Applies(view, ch) <==> p in view && view[p].Dir? && p != "/" && forall q :: q in view ==> !(p + "/" <= q))
      && Do(view, ch) == (if Applies(view, ch) then view - {p} else view)
      && DoCached(cache, ch) == cache && DoOpen(handles, ch) == handles
  {
  }

  lemma UnlinkMeans(view: FS, cache: FS, handles: map<nat, Handle>, p: string)
    ensures
      var ch := Change.Unlink(p);
      && (Applies(view, ch) <==> p in view && (view[p].File? || view[p].Link?))
      && Do(view, ch) == (if Applies(view, ch) then view - {p} else view) && DoCached(cache, ch) == cache - {p}
      && HaveLost(handles, DoOpen(handles, ch), p)
  {
  }

  lemma MovesMean(view: FS, cache: FS, handles: map<nat, Handle>, records: seq<Record>, from: string, to: string)
    requires Cached(view, cache)
    ensures Applies(view, Change.Rename(from, to)) <==> MayMove(view, from, to)
    ensures MayMove(view, from, to) ==>
              && HasMoved(view, Do(view, Change.Rename(from, to)), from, to)
              && HasMoved(cache, DoCached(cache, Change.Rename(from, to)), from, to)
    ensures HaveFollowed(handles, DoOpen(handles, Change.Rename(from, to)), from, to)
    ensures HaveBeenRewritten(records, Rewritten(records, from, to) + [RenameRecord(from, to)], from, to)
  {
    hide MovedTree, HasMoved, Placed, InDir, Shows;
    RenameMeans(view, from, to);
    if MayMove(view, from, to) {
      NoneWithin(view, cache, to);
      MovedTreeMeans(cache, from, to);
    }
    if h :| h in handles && handles[h].path == from { assert handles[h].path[|from|..] == ""; }
  }

  lemma NoneWithin(view: FS, cache: FS, to: string)
    requires Cached(view, cache) && to !in view && forall q :: q in view ==> !(to + "/" <= q)
    ensures forall q :: q in cache ==> !Within(to, q)
  {
  }

  lemma RenameApplies(view: FS, from: string, to: string)
    ensures Applies(view, Change.Rename(from, to)) <==> CanRename(view, from, to)
  {
  }

  // ---------------------------------------------------------------- writing

  /** What the view shows after a write through a handle: nothing new, if the file was unlinked or could
      not be cached. */
  function Written(view: FS, h: Handle, offset: nat, buf: seq<byte>): FS {
    if h.attached && h.ready && h.path in view && view[h.path].File? then
      view[h.path := File(Spliced(view[h.path].content, offset, buf))]
    else view
  }

  /** From `offset` on the file at `p` holds `buf`; a gap before that is zeros; else it is as it was, and so
      is everything else. */
  ghost predicate HasWritten(was: FS, now: FS, p: string, offset: nat, buf: seq<byte>) {
    && p in was && was[p].File? && p in now && now[p].File? && now == was[p := now[p]]
    && var s, t := was[p].content, now[p].content;
       && |t| == (if |s| < offset + |buf| then offset + |buf| else |s|)
       && (forall i :: 0 <= i < |buf| ==> t[offset + i] == buf[i])
       && (forall i :: 0 <= i < |t| && !(offset <= i < offset + |buf|) ==> t[i] == if i < |s| then s[i] else 0)
  }

  lemma SplicedMeans(fs: FS, p: string, offset: nat, buf: seq<byte>)
    requires p in fs && fs[p].File?
    ensures HasWritten(fs, fs[p := File(Spliced(fs[p].content, offset, buf))], p, offset, buf)
  {
    hide Spliced;
    var s := fs[p].content;
    forall i | 0 <= i < |Spliced(s, offset, buf)|
      ensures Spliced(s, offset, buf)[i] ==
              if offset <= i < offset + |buf| then buf[i - offset] else if i < |s| then s[i] else 0
    {
      SplicedAt(s, offset, buf, i);
    }
    SplicedAt(s, offset, buf, 0);
  }

  lemma WrittenMeans(u: FS, view: FS, cache: FS, handles: map<nat, Handle>, h: nat, offset: nat, buf: seq<byte>)
    requires Consistent(u, view, cache) && HandlesOk(handles, cache) && h in handles && handles[h].ready
    ensures
      var p := handles[h].path;
      var view', cache' := Written(view, handles[h], offset, buf), Written(cache, handles[h], offset, buf);
      if handles[h].attached then HasWritten(view, view', p, offset, buf) && HasWritten(cache, cache', p, offset, buf)
      else view' == view && cache' == cache
  {
    hide Spliced, HasWritten, Shows;
    if handles[h].attached {
      SplicedMeans(view, handles[h].path, offset, buf);
      SplicedMeans(cache, handles[h].path, offset, buf);
    }
  }

  lemma ConsistentCached(u: FS, view: FS, cache: FS)
    requires Consistent(u, view, cache)
    ensures Cached(view, cache)
  {
  }

  /** Only the cached content is written; the size of the file grows with it. */
  function Grown(tree: FS, h: Handle, end: nat): FS {
    if h.attached && h.ready && h.path in tree && tree[h.path].File? && |tree[h.path].content| < end then
      tree[h.path := File(Resized(tree[h.path].content, end))]
    else tree
  }

  lemma SplicedShown(shown: seq<byte>, cached: seq<byte>, offset: nat, buf: seq<byte>)
    requires Shows(cached, shown)
    ensures Shows(Spliced(cached, offset, buf), Spliced(shown, offset, buf))
  {
    var c, v := Spliced(cached, offset, buf), Spliced(shown, offset, buf);
    forall i | 0 <= i < |v|
      ensures v[i] == if i < |c| then c[i] else 0
    {
      SplicedAt(cached, offset, buf, i);
      SplicedAt(shown, offset, buf, i);
    }
  }

  lemma SplicedAt(s: seq<byte>, offset: nat, buf: seq<byte>, i: nat)
    ensures |Spliced(s, offset, buf)| == if |s| < offset + |buf| then offset + |buf| else |s|
    ensures i < |Spliced(s, offset, buf)| ==>
      Spliced(s, offset, buf)[i] ==
      if offset <= i < offset + |buf| then buf[i - offset] else if i < |s| then s[i] else 0
  {
  }

  /** A written file catches up once it is pending. */
  lemma SplicedCatches(u: seq<byte>, shown: seq<byte>, cached: seq<byte>, offset: nat, buf: seq<byte>)
    requires Shows(cached, shown) && Catches(u, shown, cached, true)
    ensures Catches(u, Spliced(shown, offset, buf), Spliced(cached, offset, buf), true)
  {
    SplicedShown(shown, cached, offset, buf);
    var c, v := Spliced(cached, offset, buf), Spliced(shown, offset, buf);
    var o := Overlaid(u, c);
    assert |o| == |v|;
    forall i | |c| <= i < |u|
      ensures u[i] == 0
    {
      assert Overlaid(u, cached)[i] == shown[i];
    }
    assert forall i :: 0 <= i < |v| ==> o[i] == v[i];
  }

  lemma WrittenConsistent(u: FS, view: FS, cache: FS, h: Handle, offset: nat, buf: seq<byte>)
    requires Consistent(u, view, cache) && (h.attached && h.ready ==> h.path in cache)
    ensures Consistent(u, Written(view, h, offset, buf), Written(cache, h, offset, buf))
  {
    if h.attached && h.ready {
      SplicedShown(view[h.path].content, cache[h.path].content, offset, buf);
    }
  }

  lemma WrittenInStep(u: FS, view: FS, cache: FS, pending: set<string>, h: Handle, offset: nat, buf: seq<byte>)
    requires Consistent(u, view, cache) && InStep(u, view, cache, pending) && (h.attached && h.ready ==> h.path in cache)
    ensures InStep(u, Written(view, h, offset, buf), Written(cache, h, offset, buf), pending + {h.path})
  {
    hide Catches, Shows, Spliced;
    var view', cache', pending' := Written(view, h, offset, buf), Written(cache, h, offset, buf), pending + {h.path};
    forall p | p in cache
      ensures CatchesUp(u, view', cache', p, p in pending')
    {
      assert CatchesUp(u, view, cache, p, p in pending);
      if p == h.path && p !in pending { PendingToo(u[p].content, view[p].content, cache[p].content); }
      if p == h.path && h.attached && h.ready {
        SplicedCatches(u[p].content, view[p].content, cache[p].content, offset, buf);
      }
    }
  }

  /** A write that is not logged is lost, unless it writes what is there already. */
  lemma WrittenUnlogged(u: FS, view: FS, cache: FS, pending: set<string>, h: Handle, offset: nat, buf: seq<byte>)
    requires Consistent(u, view, cache) && InStep(u, view, cache, pending)
    requires h.attached && h.ready && h.path in cache && h.path !in pending
    ensures InStep(u, Written(view, h, offset, buf), Written(cache, h, offset, buf), pending) <==>
            Written(view, h, offset, buf) == view
  {
    hide Shows, Spliced;
    var view', cache' := Written(view, h, offset, buf), Written(cache, h, offset, buf);
    assert CatchesUp(u, view, cache, h.path, false);
    forall p | p in cache && p != h.path
      ensures CatchesUp(u, view', cache', p, p in pending)
    {
      assert CatchesUp(u, view, cache, p, p in pending);
    }
  }

  lemma GrownSizes(tree: FS, view: FS, cache: FS, h: Handle, offset: nat, buf: seq<byte>)
    requires SameSizes(tree, view) && Cached(view, cache) && (h.attached && h.ready ==> h.path in cache)
    ensures SameSizes(Grown(tree, h, offset + |buf|), Written(view, h, offset, buf))
  {
  }

  lemma HandlesWritten(handles: map<nat, Handle>, cache: FS, pending: set<string>, h: nat, offset: nat, buf: seq<byte>)
    requires HandlesOk(handles, cache) && h in handles && handles[h].ready
    ensures HandlesOk(handles[h := handles[h].(dirty := true)], Written(cache, handles[h], offset, buf))
    ensures handles[h].dirty ==> handles[h := handles[h].(dirty := true)] == handles
    ensures AllLogged(handles, pending) ==> AllLogged(handles[h := handles[h].(dirty := true)], pending + {handles[h].path})
  {
  }

  // ---------------------------------------------------------------- the file system

  /** What an apply came to: it was refused for one under way, aborted on counts left over, was given
      up for want of a journal, or done. */
  datatype Applied = Refused | Aborts | GaveUp | Done

  class Local {
    const log: Log
    const source: Source
    /** The metadata: names, kinds and sizes. Of the contents only the lengths matter. */
    var tree: FS
    /** The cached files. */
    var cache: FS
    var handles: map<nat, Handle>
    /** What the file system shows. A file that is not cached is shown as the source will have it. */
    ghost var view: FS
    ghost var records: seq<Record>
    /** An apply was left before its end. */
    var stuck: bool
    /** The counts of the last apply were not cleared. */
    var leftover: bool

    /** The source as replaying the journal would leave it. */
    ghost function Replayed(): FS
      reads this, source
    {
      Replay(source.fs, records)
    }

    ghost predicate Valid()
      reads this, log, source
    {
      && log.Holds(records) && SameSizes(tree, view) && Consistent(Replayed(), view, cache)
      && HandlesOk(handles, cache)
    }

    lemma CachedHere()
      requires Valid()
      ensures Cached(view, cache)
    {
    }

    /** Each file that was written through an open handle is to be written back. */
    ghost predicate Logged()
      reads this
    {
      AllLogged(handles, Pending(records))
    }

    /** Each cached file will be in the source as it is shown. */
    ghost predicate InStepNow()
      reads this, source
    {
      InStep(Replayed(), view, cache, Pending(records))
    }

    constructor (source: Source)
      ensures Valid() && InStepNow() && Logged() && this.source == source && view == source.fs
      ensures cache == map[] && handles == map[] && records == [] && fresh(log)
      ensures !log.present && !stuck && !leftover
    {
      log := new Log();
      this.source := source;
      stuck, leftover := false, false;
      tree, cache, handles, view, records := source.fs, map[], map[], source.fs, [];
    }

    /** A change of the tree is made and logged, if it can be made. */
    method Commit(ch: Change, r: Record) returns (ok: bool)
      requires Valid() && Encodable(r) && ChangeOf(r) == ch && r.op != FSYNC && r.op != RENAME
      modifies this`tree, this`cache, this`handles, this`view, this`records, log
      ensures Valid() && (old(InStepNow()) ==> InStepNow()) && (old(Logged()) ==> Logged())
      ensures ok == Applies(old(view), ch) && view == Do(old(view), ch)
      ensures cache == if ok then DoCached(old(cache), ch) else old(cache)
      ensures handles == if ok then DoOpen(old(handles), ch) else old(handles)
      ensures records == if ok then old(records) + [r] else old(records)
      ensures log.present == (ok || old(log.present))
    {
      hide Consistent, InStep, Applies, Log.Holds, Do, DoCached, DoOpen, HandlesOk, AllLogged, SameSizes, Encodable,
           AllEncodable, Replay, Rewritten, Pending, IsRegular;
      SizesKept(tree, view, ch);
      SizesShape(tree, view);
      SameSuccess(tree, view, ch);
      NotApplied(view, ch);
      ok := Applies(tree, ch);
      if !ok { return; }
      ConsistentKept(Replayed(), view, cache, ch);
      if InStepNow() { StepKept(Replayed(), view, cache, Pending(records), ch); }
      HandlesKept(handles, cache, Pending(records), ch);
      StillApplies(Replayed(), view, cache, ch);
      ReplayMore(source.fs, records, r);
      PendingMore(records, r);
      assert Pending(records) + {} == Pending(records);
      tree, cache, handles, view := Do(tree, ch), DoCached(cache, ch), DoOpen(handles, ch), Do(view, ch);
      log.Append(r, records);
      records := records + [r];
    }

    method Mknod(p: string, mode: nat, rdev: nat, uid: nat, gid: nat) returns (ok: bool)
      requires Valid() && Encodable(Record(MKNOD, p, "", mode, rdev, uid, gid, 0, 0, 0))
      modifies this`tree, this`cache, this`handles, this`view, this`records, log
      ensures Valid() && (old(InStepNow()) ==> InStepNow()) && (old(Logged()) ==> Logged())
      ensures ok <==> p !in old(view) && Placed(old(view), p)
      ensures view == if ok then old(view)[p := if mode / 0x1000 % 16 == 8 then File([]) else Special] else old(view)
      ensures cache == if ok && mode / 0x1000 % 16 == 8 then old(cache)[p := File([])] else old(cache)
      ensures handles == old(handles) && log.present == (ok || old(log.present))
      ensures records == old(records) + if ok then [Record(MKNOD, p, "", mode, rdev, uid, gid, 0, 0, 0)] else []
    {
      hide Local.Valid, Local.InStepNow, Local.Logged, Log.Holds, Encodable, Do, Applies, DoCached, DoOpen, Placed;
      MakeMeans(view, cache, handles, if IsRegular(mode) then Change.Mknod(p) else Change.Mkspecial(p));
      ok := Commit(if IsRegular(mode) then Change.Mknod(p) else Change.Mkspecial(p),
                   Record(MKNOD, p, "", mode, rdev, uid, gid, 0, 0, 0));
    }

    method Mkdir(p: string, mode: nat, uid: nat, gid: nat) returns (ok: bool)
      requires Valid() && Encodable(Record(MKDIR, p, "", mode, 0, uid, gid, 0, 0, 0))
      modifies this`tree, this`cache, this`handles, this`view, this`records, log
      ensures Valid() && (old(InStepNow()) ==> InStepNow()) && (old(Logged()) ==> Logged())
      ensures ok <==> p !in old(view) && Placed(old(view), p)
      ensures view == if ok then old(view)[p := Dir] else old(view)
      ensures cache == old(cache) && handles == old(handles) && log.present == (ok || old(log.present))
      ensures records == old(records) + if ok then [Record(MKDIR, p, "", mode, 0, uid, gid, 0, 0, 0)] else []
    {
      hide Local.Valid, Local.InStepNow, Local.Logged, Log.Holds, Encodable, Do, Applies, DoCached, DoOpen, Placed;
      MakeMeans(view, cache, handles, Change.Mkdir(p));
      ok := Commit(Change.Mkdir(p), Record(MKDIR, p, "", mode, 0, uid, gid, 0, 0, 0));
    }

    method Symlink(target: string, p: string) returns (ok: bool)
      requires Valid() && Encodable(Plain(SYMLINK, p, target, 0))
      modifies this`tree, this`cache, this`handles, this`view, this`records, log
      ensures Valid() && (old(InStepNow()) ==> InStepNow()) && (old(Logged()) ==> Logged())
      ensures ok <==> p !in old(view) && Placed(old(view), p)
      ensures view == if ok then old(view)[p := Link(target)] else old(view)
      ensures cache == old(cache) && handles == old(handles) && log.present == (ok || old(log.present))
      ensures records == old(records) + if ok then [Record(SYMLINK, p, target, 0, 0, 0, 0, 0, 0, 0)] else []
    {
      hide Local.Valid, Local.InStepNow, Local.Logged, Log.Holds, Encodable, Do, Applies, DoCached, DoOpen, Placed;
      MakeMeans(view, cache, handles, Change.Symlink(p, target));
      ok := Commit(Change.Symlink(p, target), Plain(SYMLINK, p, target, 0));
    }

    /** The size changes, and the content if it is cached. */
    method Truncate(p: string, size: nat) returns (ok: bool)
      requires Valid() && Encodable(Plain(TRUNCATE, p, "", size))
      modifies this`tree, this`cache, this`handles, this`view, this`records, log
      ensures Valid() && (old(InStepNow()) ==> InStepNow()) && (old(Logged()) ==> Logged())
      ensures ok <==> p in old(view) && old(view)[p].File?
      ensures if ok then HasCut(old(view), view, p, size) else view == old(view)
      ensures ok && p in old(cache) ==> HasCut(old(cache), cache, p, size)
      ensures !ok || p !in old(cache) ==> cache == old(cache)
      ensures handles == old(handles) && log.present == (ok || old(log.present))
      ensures records == old(records) + if ok then [Record(TRUNCATE, p, "", 0, 0, 0, 0, size, 0, 0)] else []
    {
      hide Local.Valid, Local.InStepNow, Local.Logged, Log.Holds, Encodable, Do, Applies, DoCached, HasCut;
      CachedHere();
      TruncateMeans(view, cache, p, size);
      ok := Commit(Change.Truncate(p, size), Plain(TRUNCATE, p, "", size));
    }

    /** An entry goes; handles open on it lose it. */
    method Unlink(p: string) returns (ok: bool)
      requires Valid() && Encodable(Plain(UNLINK, p, "", 0))
      modifies this`tree, this`cache, this`handles, this`view, this`records, log
      ensures Valid() && (old(InStepNow()) ==> InStepNow()) && (old(Logged()) ==> Logged())
      ensures ok <==> p in old(view) && (old(view)[p].File? || old(view)[p].Link?)
      ensures view == (if ok then old(view) - {p} else old(view)) && cache == if ok then old(cache) - {p} else old(cache)
      ensures if ok then HaveLost(old(handles), handles, p) else handles == old(handles)
      ensures records == old(records) + if ok then [Record(UNLINK, p, "", 0, 0, 0, 0, 0, 0, 0)] else []
    {
      hide Local.Valid, Local.InStepNow, Local.Logged, Log.Holds, Encodable, Do, Applies, DoCached, DoOpen, HaveLost;
      UnlinkMeans(view, cache, handles, p);
      ok := Commit(Change.Unlink(p), Plain(UNLINK, p, "", 0));
    }

    method Rmdir(p: string) returns (ok: bool)
      requires Valid() && Encodable(Plain(RMDIR, p, "", 0))
      modifies this`tree, this`cache, this`handles, this`view, this`records, log
      ensures Valid() && (old(InStepNow()) ==> InStepNow()) && (old(Logged()) ==> Logged())
      ensures ok <==> p in old(view) && old(view)[p].Dir? && p != "/" && forall q :: q in old(view) ==> !(p + "/" <= q)
      ensures view == if ok then old(view) - {p} else old(view)
      ensures cache == old(cache) && handles == old(handles)
      ensures records == old(records) + if ok then [Record(RMDIR, p, "", 0, 0, 0, 0, 0, 0, 0)] else []
    {
      hide Local.Valid, Local.InStepNow, Local.Logged, Log.Holds, Encodable, Do, Applies, DoCached, DoOpen;
      RmdirMeans(view, cache, handles, p);
      ok := Commit(Change.Rmdir(p), Plain(RMDIR, p, "", 0));
    }

    /** The journal follows a renaming. If all was in step, it still is exactly if each cached file
        that differs from its replayed state is among the rewritten write-backs; this is so if the
        renamed path splits no pending name. */
    method Rename(from: string, to: string) returns (ok: bool)
      requires Valid() && Encodable(RenameRecord(from, to)) && AllEncodable(Rewritten(records, from, to))
      modifies this`tree, this`cache, this`handles, this`view, this`records, log
      ensures ok <==> MayMove(old(view), from, to)
      ensures if ok then HasMoved(old(view), view, from, to) && HasMoved(old(cache), cache, from, to)
              else view == old(view) && cache == old(cache) && handles == old(handles) && records == old(records)
      ensures ok ==> HaveFollowed(old(handles), handles, from, to) && HaveBeenRewritten(old(records), records, from, to)
      ensures view == Do(old(view), Change.Rename(from, to))
      ensures records == if ok then Rewritten(old(records), from, to) + [RenameRecord(from, to)] else old(records)
      ensures cache == if ok then DoCached(old(cache), Change.Rename(from, to)) else old(cache)
      ensures handles == if ok then DoOpen(old(handles), Change.Rename(from, to)) else old(handles)
      ensures log.present == (ok || old(log.present))
      ensures Valid() && (ok ==> (InStepNow() <==> forall p :: p in old(cache) ==>
                Survives(old(Replayed()), old(view), old(cache), Pending(records), from, to, p)))
      ensures !ok || NoNameSplit(old(records), from) ==> (old(InStepNow()) ==> InStepNow()) && (old(Logged()) ==> Logged())
    {
      hide Consistent, InStep, Applies, CanRename, Log.Holds, Do, DoCached, DoOpen, HandlesOk, AllLogged, SameSizes,
           Encodable, AllEncodable, Rewritten, NoNameSplit, Survives, HasMoved, MayMove, HaveFollowed, HaveBeenRewritten;
      var ch, r := Change.Rename(from, to), RenameRecord(from, to);
      ConsistentCached(Replayed(), view, cache);
      MovesMean(view, cache, handles, records, from, to);
      SizesKept(tree, view, ch);
      SizesShape(tree, view);
      SameSuccess(tree, view, ch);
      NotApplied(view, ch);
      ok := Applies(tree, ch);
      if !ok { return; }
      RenameApplies(view, from, to);
      RenameStep(source.fs, records, view, cache, handles, from, to);
      tree, cache, handles, view := Do(tree, ch), DoCached(cache, ch), DoOpen(handles, ch), Do(view, ch);
      log.Append(r, records);
      records := Rewritten(records, from, to) + [r];
    }

    /** The file can be read: from the cache, or from the source under the same name. */
    predicate Reachable(p: string)
      reads this, source
    {
      p in cache || (p in source.fs && source.fs[p].File?)
    }

    /** Opens a file; all who open the same entry share one handle. A file that is not cached is
        copied from the source, which was not replayed yet: from its present path, as far as its
        present size goes. If it is not there, opening works all the same, but the handle is of no
        use until the file can be copied. `free` is a handle not in use. */
    method Open(p: string, free: nat) returns (h: nat)
      requires Valid() && p in view && view[p].File? && free !in handles
      modifies this`cache, this`handles, this`view
      ensures Valid() && (old(Logged()) ==> Logged())
      ensures p in old(cache) || p !in source.fs || !source.fs[p].File? ==>
                view == old(view) && cache == old(cache) && InStepNow() == old(InStepNow())
      ensures p !in old(cache) && p in source.fs && source.fs[p].File? ==>
                var have, size := source.fs[p].content, |old(view)[p].content|;
                && view == old(view)[p := view[p]] && view[p] == File(Resized(have, size)) && CutTo(have, size, view[p].content)
                && cache == old(cache)[p := File(have[..if size < |have| then size else |have|])]
                && (old(InStepNow()) ==> (InStepNow() <==> OpensWell(source.fs, records, old(view), p)))
      ensures h == free || (h in old(handles) && old(handles)[h].attached && old(handles)[h].path == p)
      ensures h == free ==> forall i :: i in old(handles) ==> !(old(handles)[i].attached && old(handles)[i].path == p)
      ensures var ready := p in old(cache) || (p in source.fs && source.fs[p].File?);
              && handles == old(handles)[h := Handle(p, true, h in old(handles) && old(handles)[h].dirty, ready)]
              && (ready ==> p in cache)
    {
      hide Consistent, InStep, Log.Holds, HandlesOk, AllLogged, Catches, CutTo, OpensWell, Replay, Pending, SameSizes, Resized;
      h := free;
      var ready := Reachable(p);
      if ready && p !in cache {
        SizesShape(tree, view);
        var have, size := source.fs[p].content, |tree[p].content|;
        SizesAt(tree, view, p);
        StepOpened(Replayed(), view, cache, Pending(records), p, have);
        OpensAs(source.fs, records, view, p);
        SizesSet(tree, view, p, Resized(have, size));
        ResizedMeans(have, size);
        MoreCached(handles, cache, p, File(have[..Smaller(size, |have|)]));
        cache := cache[p := File(have[..Smaller(size, |have|)])];
        view := view[p := File(Resized(have, size))];
      }
      if i :| i in handles && handles[i].attached && handles[i].path == p {
        h := i;
      }
      Opened(handles, cache, Pending(records), p, h, ready);
      handles := handles[h := Handle(p, true, h in handles && handles[h].dirty, ready)];
    }

    /** The content read through a handle: the cached one, filled up to the size of the file. */
    method Read(h: nat) returns (content: seq<byte>)
      requires Valid() && h in handles && handles[h].attached && handles[h].ready
      ensures handles[h].path in view && view[handles[h].path] == File(content)
    {
      var p := handles[h].path;
      assert p in tree.Keys;
      content := Resized(cache[p].content, |tree[p].content|);
    }

    /** A handle nobody uses any more is given up. */
    method Close(h: nat)
      requires Valid() && h in handles
      modifies this`handles
      ensures Valid() && handles == old(handles) - {h} && InStepNow() == old(InStepNow()) && (old(Logged()) ==> Logged())
    {
      hide Consistent, InStep;
      handles := handles - {h};
    }

    /** Writes through a handle, unless the file could not be cached or there is nothing to write. The
        first write of a handle logs that the file is to be written back. If all was in step, it still
        is, unless the handle believes its file to be logged and it is not. */
    method Write(h: nat, buf: seq<byte>, offset: nat) returns (ok: bool)
      requires Valid() && h in handles && Encodable(Plain(FSYNC, handles[h].path, "", 0))
      modifies this`tree, this`cache, this`view, this`handles, this`records, log
      ensures Valid() && (old(Logged()) ==> Logged()) && ok == (buf == [] || old(handles)[h].ready)
      ensures old(InStepNow()) ==>
                (InStepNow() <==> buf == [] || !Forgotten(old(handles)[h], Pending(old(records))) || view == old(view))
      ensures buf == [] || !ok ==>
                view == old(view) && cache == old(cache) && handles == old(handles) && records == old(records)
      ensures buf != [] && ok ==>
                var handle := old(handles)[h];
                && view == Written(old(view), handle, offset, buf) && cache == Written(old(cache), handle, offset, buf)
                && handles == old(handles)[h := handle.(dirty := true)]
                && records == old(records) + if handle.dirty then [] else [Record(FSYNC, handle.path, "", 0, 0, 0, 0, 0, 0, 0)]
      ensures buf != [] && ok && !old(handles)[h].attached ==> view == old(view) && cache == old(cache)
      ensures buf != [] && ok && old(handles)[h].attached ==>
                var p := old(handles)[h].path;
                && HasWritten(old(view), view, p, offset, buf) && HasWritten(old(cache), cache, p, offset, buf)
      ensures log.present == (old(log.present) || (buf != [] && ok && !old(handles)[h].dirty))
    {
      hide Consistent, InStep, Log.Holds, HandlesOk, AllLogged, Forgotten, Encodable, AllEncodable, Written, Grown,
           SameSizes, HasWritten, Replay, Pending;
      ok := buf == [] || handles[h].ready;
      if buf == [] || !ok {
        return;
      }
      ghost var handle, pending := handles[h], Pending(records);
      var r := Plain(FSYNC, handles[h].path, "", 0);
      WriteStep(Replayed(), tree, view, cache, handles, pending, h, offset, buf);
      WrittenMeans(Replayed(), view, cache, handles, h, offset, buf);
      ReplayMore(source.fs, records, r);
      PendingMore(records, r);
      tree := Grown(tree, handles[h], offset + |buf|);
      cache, view := Written(cache, handles[h], offset, buf), Written(view, handles[h], offset, buf);
      if !handles[h].dirty {
        handles := handles[h := handles[h].(dirty := true)];
        log.Append(r, records);
        records := records + [r];
      }
    }

    /** Applies the journal, if no apply is under way and the counts were cleared: all changes of the
        tree first, all write-backs afterwards. The source becomes what the file system shows exactly
        if each cached file was in step. Afterwards there is no journal, and no handle logs any more
        that was written through before. Without a journal it is given up for good. */
    method Apply() returns (r: Applied, ghost trace: seq<FS>)
      requires Valid()
      modifies this`records, this`stuck, this`leftover, log, source
      ensures Valid() && (InStepNow() <==> old(InStepNow()))
      ensures r == if old(stuck) then Refused else if old(leftover) then Aborts else if !old(log.present) then GaveUp else Done
      ensures r.Done? ==>
                && (source.fs == view <==> old(InStepNow()))
                && source.fs == WriteBackAll(old(Replayed()), cache, WriteBacks(old(records)))
                && |trace| == |old(records)| + 1
                && TookAll(old(source.fs), trace, trace[|old(records)|], old(records))
                && WrittenBack(trace[|old(records)|], source.fs, cache, old(records))
                && records == [] && !log.present && (Logged() <==> !AnyDirty(handles))
                && (leftover <==> WriteBacks(old(records)) != [] && forall p <- WriteBacks(old(records)) :: p !in cache)
      ensures !r.Done? ==> source.fs == old(source.fs) && records == old(records) && log.present == old(log.present)
      ensures !r.Done? ==> leftover == old(leftover) && stuck == (old(stuck) || r.GaveUp?)
      ensures r.Done? ==> !stuck
    {
      hide HandlesOk, Consistent, InStep, AnyDirty, AllLogged, SameSizes, Pending, WriteBacks, WriteBackAll, Replay, Took,
           WrittenBack, TookAll, Log.Holds;
      trace := [];
      if stuck { return Refused, trace; }
      if leftover { return Aborts, trace; }
      ghost var u, s := Replayed(), WriteBacks(records);
      PendingWriteBacks(records);
      assert (set p | p in s) == Pending(records);
      CaughtUp(u, view, cache, s);
      AppliedConsistent(u, view, cache, s);
      WritesBack(u, cache, records);
      var ok;
      ok, trace := source.ApplyUpdates(log, records);
      if !ok {
        stuck := true;
        return GaveUp, trace;
      }
      var asked;
      ghost var at;
      ok, asked, at := source.ApplyFsync(log, records);
      leftover := asked != [] && forall p <- asked :: p !in cache;
      source.CopyBack(cache, asked);
      StartOver(source.fs, view, cache, handles);
      log.data, log.present := [], false;
      records := [];
      EmptyLog(log);
      r := Done;
    }
  }

  // ---------------------------------------------------------------- single steps

  lemma SizesShape(tree: FS, view: FS)
    requires SameSizes(tree, view)
    ensures SameShape(tree, view) && tree.Keys == view.Keys
  {
  }

  lemma SizesAt(tree: FS, view: FS, p: string)
    requires SameSizes(tree, view) && p in view && view[p].File?
    ensures p in tree && tree[p].File? && |tree[p].content| == |view[p].content|
  {
    assert p in tree.Keys;
  }

  lemma SizesSet(tree: FS, view: FS, p: string, content: seq<byte>)
    requires SameSizes(tree, view) && p in view && view[p].File? && |content| == |view[p].content|
    ensures SameSizes(tree, view[p := File(content)])
  {
  }

  lemma StillApplies(u: FS, view: FS, cache: FS, ch: Change)
    requires Consistent(u, view, cache)
    ensures Applies(u, ch) <==> Applies(view, ch)
  {
    SameSuccess(u, view, ch);
  }

  lemma WriteStep(u: FS, tree: FS, view: FS, cache: FS, handles: map<nat, Handle>, pending: set<string>, h: nat, offset: nat,
                  buf: seq<byte>)
    requires Consistent(u, view, cache) && SameSizes(tree, view) && HandlesOk(handles, cache)
    requires h in handles && handles[h].ready
    ensures
      var handle := handles[h];
      var pending' := if handle.dirty then pending else pending + {handle.path};
      var view', cache' := Written(view, handle, offset, buf), Written(cache, handle, offset, buf);
      && Consistent(u, view', cache') && SameSizes(Grown(tree, handle, offset + |buf|), view')
      && HandlesOk(handles[h := handle.(dirty := true)], cache')
      && (AllLogged(handles, pending) ==> AllLogged(handles[h := handle.(dirty := true)], pending'))
      && (InStep(u, view, cache, pending) ==>
            (InStep(u, view', cache', pending') <==> !Forgotten(handle, pending) || view' == view))
      && (handle.dirty ==> handles[h := handle.(dirty := true)] == handles)
  {
    hide InStep, SameSizes, Catches, Shows, Spliced, Grown;
    var handle := handles[h];
    WrittenConsistent(u, view, cache, handle, offset, buf);
    GrownSizes(tree, view, cache, handle, offset, buf);
    HandlesWritten(handles, cache, pending, h, offset, buf);
    if InStep(u, view, cache, pending) {
      WrittenInStep(u, view, cache, pending, handle, offset, buf);
      if Forgotten(handle, pending) {
        WrittenUnlogged(u, view, cache, pending, handle, offset, buf);
      } else if handle.path in pending {
        assert pending + {handle.path} == pending;
      }
    }
  }

  lemma RenameStep(source: FS, records: seq<Record>, view: FS, cache: FS, handles: map<nat, Handle>, from: string, to: string)
    requires Consistent(Replay(source, records), view, cache) && CanRename(view, from, to) && HandlesOk(handles, cache)
    ensures
      var renamed := Rewritten(records, from, to) + [RenameRecord(from, to)];
      var ch := Change.Rename(from, to);
      var u, u' := Replay(source, records), Replay(source, renamed);
      var handles', cache' := DoOpen(handles, ch), DoCached(cache, ch);
      && Consistent(u', Do(view, ch), cache') && HandlesOk(handles', cache')
      && (InStep(u', Do(view, ch), cache', Pending(renamed)) <==>
           forall p :: p in cache ==> Survives(u, view, cache, Pending(renamed), from, to, p))
      && (NoNameSplit(records, from) && InStep(u, view, cache, Pending(records)) ==> InStep(u', Do(view, ch), cache', Pending(renamed)))
      && (NoNameSplit(records, from) && AllLogged(handles, Pending(records)) ==> AllLogged(handles', Pending(renamed)))
  {
    hide Replay, Rewritten, Pending, Within, Survives, InStep, MovedTree, Followed, HandlesOk, AllLogged, Consistent,
         NoNameSplit, MovedSet;
    var rewritten, ch := Rewritten(records, from, to), Change.Rename(from, to);
    var renamed, u := rewritten + [RenameRecord(from, to)], Replay(source, records);
    StillApplies(u, view, cache, ch);
    ReplayRewritten(source, records, from, to);
    ReplayMore(source, rewritten, RenameRecord(from, to));
    PendingMore(rewritten, RenameRecord(from, to));
    assert Pending(renamed) == Pending(rewritten);
    ConsistentKept(u, view, cache, ch);
    StepRenamed(u, view, cache, Pending(rewritten), from, to);
    NoneAt(u, view, cache, from, to);
    HandlesFollow(handles, cache, Pending(records), from, to);
    if NoNameSplit(records, from) {
      PendingRewritten(records, from, to);
      if InStep(u, view, cache, Pending(records)) { RenamedInStep(u, view, cache, records, from, to); }
    }
  }

  lemma NoneAt(u: FS, view: FS, cache: FS, from: string, to: string)
    requires Consistent(u, view, cache) && CanRename(view, from, to)
    ensures from != to && CanRename(u, from, to) && forall q :: q in cache ==> !Within(to, q)
    ensures Do(view, Change.Rename(from, to)) == MovedTree(view, from, to)
    ensures Do(u, Change.Rename(from, to)) == MovedTree(u, from, to)
  {
    SameSuccess(u, view, Change.Rename(from, to));
  }

  /** The guard of opening a file that is not cached, in terms of the source and of the log. */
  ghost predicate OpensWell(source: FS, records: seq<Record>, view: FS, p: string) {
    && p in Replay(source, records) && Replay(source, records)[p].File? && p in view && view[p].File?
    && Harmless(source, PastOf(source, records, p), p, |view[p].content|, p in Pending(records))
  }

  lemma OpensAs(source: FS, records: seq<Record>, view: FS, p: string)
    requires p in view && view[p].File? && p in Replay(source, records) && Replay(source, records)[p] == view[p]
    requires p in source && source[p].File?
    ensures
      var have, size := source[p].content, |view[p].content|;
      OpensWell(source, records, view, p) <==>
      Catches(Replay(source, records)[p].content, Resized(have, size), have[..Smaller(size, |have|)], p in Pending(records))
  {
    PastContent(source, records, p);
  }

  lemma MoreCached(handles: map<nat, Handle>, cache: FS, p: string, node: Node)
    requires HandlesOk(handles, cache)
    ensures HandlesOk(handles, cache[p := node])
  {
  }

  lemma Opened(handles: map<nat, Handle>, cache: FS, pending: set<string>, p: string, h: nat, ready: bool)
    requires HandlesOk(handles, cache) && (ready <==> p in cache)
    requires h in handles ==> handles[h].attached && handles[h].path == p
    ensures
      var handles' := handles[h := Handle(p, true, h in handles && handles[h].dirty, ready)];
      HandlesOk(handles', cache) && (AllLogged(handles, pending) ==> AllLogged(handles', pending))
  {
    if AllLogged(handles, pending) && h in handles {
      assert !Forgotten(handles[h], pending);
    }
  }

  lemma AppliedConsistent(u: FS, view: FS, cache: FS, s: seq<string>)
    requires Consistent(u, view, cache)
    ensures Consistent(WriteBackAll(u, cache, s), view, cache)
  {
    WriteBackKeys(u, cache, s);
    forall p | p in u
      ensures p in WriteBackAll(u, cache, s) && SameKind(WriteBackAll(u, cache, s)[p], u[p])
      ensures p !in cache ==> WriteBackAll(u, cache, s)[p] == u[p]
    {
      WriteBackAt(u, cache, s, p);
    }
  }

  /** What remains when everything was written back. */
  lemma StartOver(fs: FS, view: FS, cache: FS, handles: map<nat, Handle>)
    requires Consistent(fs, view, cache)
    ensures Replay(fs, []) == fs && Pending([]) == {}
    ensures InStep(fs, view, cache, {}) <==> fs == view
    ensures AllLogged(handles, {}) <==> !AnyDirty(handles)
  {
    if InStep(fs, view, cache, {}) {
      forall p | p in fs
        ensures p in view && fs[p] == view[p]
      {
        assert p in cache ==> CatchesUp(fs, view, cache, p, false);
      }
    }
  }

  // ---------------------------------------------------------------- runs on which the journal fails

  ghost predicate NameParts(s: string) {
    ByteText(s) && |s| < 100
  }

  lemma SmallRecord(op: nat, p: string, to: string, size: nat)
    requires op < 100 && NameParts(p) && NameParts(to) && size < 100
    ensures Encodable(Plain(op, p, to, size))
  {
    assert Power(4) == 0x1_0000_0000;
  }

  lemma TwiceCut(fs: FS, s: seq<Record>)
    requires fs == map["/" := Dir, "/a" := File([7, 7])]
    requires s == [Plain(TRUNCATE, "/a", "", 1), Plain(TRUNCATE, "/a", "", 2)]
    ensures Replay(fs, s) == map["/" := Dir, "/a" := File([7, 0])] && WriteBacks(s) == []
  {
    assert s == [] + [s[0]] + [s[1]] && WriteBacks([]) == [] == WriteBacks(s[..1]) by {
      assert s[..1][..0] == [];
    }
    assert Resized([7, 7], 1) == [7] && Resized([7], 2) == [7, 0];
    ReplayMore(fs, [], s[0]);
    CutFile(fs, 1);
    ReplayMore(fs, [] + [s[0]], s[1]);
    CutFile(Do(fs, Change.Truncate("/a", 1)), 2);
  }

  lemma CutFile(fs: FS, n: nat)
    requires "/a" in fs && fs["/a"].File?
    ensures Do(fs, Change.Truncate("/a", n)) == fs["/a" := File(Resized(fs["/a"].content, n))]
    ensures Applies(fs, Change.Truncate("/a", n)) && DoCached(map[], Change.Truncate("/a", n)) == map[]
  {
  }

  method CutTwice() returns (fs: Local)
    ensures fs.Valid() && fresh(fs) && fresh(fs.log) && fresh(fs.source) && fs.log.present && !fs.stuck && !fs.leftover
    ensures fs.source.fs == map["/" := Dir, "/a" := File([7, 7])] && fs.cache == map[] && fs.handles == map[]
    ensures fs.view == map["/" := Dir, "/a" := File([7, 0])]
    ensures fs.records == [Plain(TRUNCATE, "/a", "", 1), Plain(TRUNCATE, "/a", "", 2)]
  {
    hide Local.Valid, Local.InStepNow, Local.Logged, Encodable, Do, Applies, DoCached;
    SmallRecord(TRUNCATE, "/a", "", 1);
    SmallRecord(TRUNCATE, "/a", "", 2);
    var tree: FS := map["/" := Dir, "/a" := File([7, 7])];
    var source := new Source(tree);
    fs := new Local(source);
    CutFile(tree, 1);
    var ok := fs.Truncate("/a", 1);
    assert fs.view["/a"].content == [7];
    ok := fs.Truncate("/a", 2);
    assert fs.view["/a"].content == [7, 0];
  }

  /** A file of two bytes is cut to one and grown to two again while it is not cached. Opened, it shows
      the byte that was cut off, which the source no longer has once the journal is applied. */
  method CutThenGrown() returns (shown: seq<byte>, source: Source)
    ensures shown == [7, 7] && "/a" in source.fs && source.fs["/a"] == File([7, 0])
  {
    hide Local.Valid, Local.InStepNow, Local.Logged, OpensWell, Replay, WriteBacks, WriteBackAll;
    var fs := CutTwice();
    source := fs.source;
    TwiceCut(source.fs, fs.records);
    assert Resized([7, 7], 2) == [7, 7];
    var h := fs.Open("/a", 0);
    shown := fs.Read(h);
    NothingWritten(Replay(source.fs, fs.records), fs.cache);
    var r, trace := fs.Apply();
  }

  lemma NothingWritten(u: FS, cache: FS)
    ensures WriteBackAll(u, cache, []) == u
  {
  }

  /** A fresh file system on a source; a file of one byte is opened and overwritten. */
  method OverwrittenFile(tree: FS, p: string, b: byte) returns (fs: Local, h: nat)
    requires p in tree && tree[p].File? && |tree[p].content| == 1 && NameParts(p)
    ensures fs.Valid() && fresh(fs) && fresh(fs.log) && fresh(fs.source) && fs.source.fs == tree
    ensures fs.view == tree[p := File([b])] && fs.cache == map[p := File([b])]
    ensures fs.log.present && !fs.stuck && !fs.leftover
    ensures fs.handles == map[h := Handle(p, true, true, true)] && fs.records == [Plain(FSYNC, p, "", 0)]
  {
    hide Local.Valid, Local.InStepNow, Local.Logged, OpensWell, Encodable, Log.Holds, Forgotten, Spliced;
    SmallRecord(FSYNC, p, "", 0);
    var source := new Source(tree);
    fs := new Local(source);
    var was := tree[p].content;
    assert Resized(was, 1) == was && was[..Smaller(1, 1)] == was;
    h := fs.Open(p, 0);
    Overwritten(was, [b]);
    var ok := fs.Write(h, [b], 0);
  }

  /** A file was overwritten, and the journal applied while the file is open. */
  method AppliedOnce() returns (fs: Local, h: nat)
    ensures fs.Valid() && fs.InStepNow() && fresh(fs) && fresh(fs.log) && fresh(fs.source)
    ensures !fs.log.present && !fs.stuck && !fs.leftover && fs.records == []
    ensures fs.view == fs.source.fs == map["/" := Dir, "/a" := File([2])] && fs.cache == map["/a" := File([2])]
    ensures fs.handles == map[h := Handle("/a", true, true, true)]
  {
    hide Local.Valid, Local.InStepNow, Local.Logged, Encodable, Log.Holds, Replay, WriteBacks, WriteBackAll;
    var tree: FS := map["/" := Dir, "/a" := File([1])];
    fs, h := OverwrittenFile(tree, "/a", 2);
    OneWritten(tree, fs.cache, "/a", fs.records);
    assert Overlaid([1], [2]) == [2];
    var r, trace := fs.Apply();
  }

  /** What is written on through the handle is not logged, and not applied with what is logged later. */
  method WrittenOnAfterApply() returns (shown: seq<byte>, source: Source)
    ensures shown == [3] && "/a" in source.fs && source.fs["/a"] == File([2]) && "/d" in source.fs
  {
    hide Local.Valid, Local.InStepNow, Local.Logged, Encodable, DoOpen, Log.Holds, Replay, WriteBacks, WriteBackAll,
         Forgotten, Spliced, Do, Applies, DoCached, HasWritten, Placed, TookAll, WrittenBack, AnyDirty;
    SmallRecord(FSYNC, "/a", "", 0);
    var fs, h := AppliedOnce();
    source := fs.source;
    Overwritten([2], [3]);
    var ok := fs.Write(h, [3], 0);
    var made := Record(MKDIR, "/d", "", 0, 0, 0, 0, 0, 0, 0);
    MadeDir(fs.view, fs.cache, made);
    MadeDir(source.fs, fs.cache, made);
    ok := fs.Mkdir("/d", 0, 0, 0);
    shown := fs.Read(h);
    assert fs.records == [] + [made] == [made];
    var r, trace := fs.Apply();
  }

  lemma MadeDir(fs: FS, cache: FS, r: Record)
    requires fs.Keys == {"/", "/a"} && fs["/"].Dir? && r == Record(MKDIR, "/d", "", 0, 0, 0, 0, 0, 0, 0)
    ensures Encodable(r) && Placed(fs, "/d") && "/d" !in fs
    ensures WriteBackAll(Replay(fs, [r]), cache, WriteBacks([r])) == fs["/d" := Dir]
  {
    hide WriteBackAll, WriteBacks, Replay, UpToSlash, ByteText;
    RoomForDir(fs, "/d", "d");
    InDirMeans(fs, "/d");
    Fits(r);
    OnlyRecord(fs, r);
    NothingWritten(Replay(fs, [r]), cache);
  }

  lemma RoomForDir(fs: FS, p: string, n: string)
    requires "/" in fs && fs["/"].Dir? && |n| == 1 && n[0] != '/' && p == "/" + n
    ensures InDir(fs, p)
  {
    DirOfJoined(p, "/", n);
  }

  lemma Fits(r: Record)
    requires r == Record(MKDIR, "/d", "", 0, 0, 0, 0, 0, 0, 0)
    ensures Encodable(r)
  {
    assert Power(4) == 0x1_0000_0000;
  }

  lemma OnlyRecord(fs: FS, r: Record)
    requires r.op == MKDIR
    ensures Replay(fs, [r]) == Do(fs, ChangeOf(r)) && WriteBacks([r]) == []
  {
    hide Do, ChangeOf;
    assert [r] == [] + [r] && [r][..0] == [];
    ReplayMore(fs, [], r);
  }

  method AppliedAgain() returns (fs: Local)
    ensures fs.Valid() && fs.InStepNow() && fresh(fs) && fresh(fs.log) && fresh(fs.source)
    ensures fs.stuck && fs.records == [] && fs.handles == map[]
    ensures fs.view == fs.source.fs == map["/" := Dir, "/a" := File([2])] && fs.cache == map["/a" := File([2])]
  {
    hide Local.Valid, Local.InStepNow, Local.Logged, Log.Holds, Replay, WriteBacks, WriteBackAll;
    var h, r;
    fs, h := AppliedOnce();
    ghost var trace;
    r, trace := fs.Apply();
    fs.Close(h);
  }

  /** The journal is applied twice in a row. What is written afterwards is logged, and would be in step,
      but it is never applied. */
  method AppliedTwice() returns (shown: seq<byte>, source: Source, fs: Local, r: Applied)
    ensures fs.source == source && fs.Valid() && fs.InStepNow() && fs.stuck && r.Refused?
    ensures shown == [3] && "/a" in source.fs && source.fs["/a"] == File([2])
  {
    hide Local.Valid, Local.InStepNow, Local.Logged, OpensWell, Encodable, Log.Holds, Replay, WriteBacks,
         WriteBackAll, Spliced;
    SmallRecord(FSYNC, "/a", "", 0);
    var h;
    fs := AppliedAgain();
    source := fs.source;
    h := fs.Open("/a", 0);
    Overwritten([2], [3]);
    var ok := fs.Write(h, [3], 0);
    shown := fs.Read(h);
    ghost var trace;
    r, trace := fs.Apply();
  }

  lemma Overwritten(s: seq<byte>, buf: seq<byte>)
    requires |s| == |buf|
    ensures Spliced(s, 0, buf) == buf
  {
  }

  lemma OneWritten(fs: FS, cache: FS, p: string, s: seq<Record>)
    requires s == [Plain(FSYNC, p, "", 0)]
    ensures WriteBackAll(Replay(fs, s), cache, WriteBacks(s)) == WriteBack(fs, cache, p)
    ensures WriteBacks(s) == [p]
  {
    hide Do, Overlaid, WriteBack, WriteBackAll;
    ReplayMore(fs, [], s[0]);
    assert s == [] + [s[0]] && s[..0] == [];
    assert WriteBacks(s) == [p];
    OneCopied(fs, cache, p);
  }

  lemma OneCopied(fs: FS, cache: FS, p: string)
    ensures WriteBackAll(fs, cache, [p]) == WriteBack(fs, cache, p)
  {
    assert [p][..0] == [];
  }

  /** "/a" is renamed while "/ab" is still to be written back: what was written is lost. */
  method SplitName() returns (shown: seq<byte>, source: Source)
    ensures shown == [2] && "/ab" in source.fs && source.fs["/ab"] == File([1])
  {
    hide Local.Valid, Local.InStepNow, Local.Logged, OpensWell, Encodable, Log.Holds, Replay, WriteBacks,
         WriteBackAll, PastOf, Forgotten, Spliced, Survives, Rewritten, MovedTree, DoCached, NoNameSplit, Do,
         Applies, Within, Relocated, CanRename, MayMove, HasMoved, HaveFollowed, HaveBeenRewritten, TookAll, WrittenBack,
         HasWritten, CutTo;
    SmallRecord(FSYNC, "/cb", "", 0);
    SmallRecord(RENAME, "/a", "/c", 0);
    var tree: FS := map["/" := Dir, "/a" := Dir, "/ab" := File([1])];
    var fs, h := OverwrittenFile(tree, "/ab", 2);
    source := fs.source;
    SplitRecords(fs.records);
    SplitMoves(fs.view);
    var ok := fs.Rename("/a", "/c");
    shown := fs.Read(h);
    SplitReplayed(tree, fs.cache, fs.records);
    var r, trace := fs.Apply();
  }

  lemma SplitRecords(s: seq<Record>)
    requires s == [Plain(FSYNC, "/ab", "", 0)]
    ensures Rewritten(s, "/a", "/c") == [Plain(FSYNC, "/cb", "", 0)]
  {
    assert "/ab"[..2] == "/a" && "/c" + "/ab"[2..] == "/cb";
  }

  lemma SplitTree(fs: FS)
    requires fs.Keys == {"/", "/a", "/ab"} && fs["/"].Dir? && fs["/a"].Dir? && fs["/ab"].File?
    ensures CanRename(fs, "/a", "/c") && !Within("/a", "/ab") && Relocated("/ab", "/a", "/c") == "/ab"
    ensures "/ab" in Do(fs, Change.Rename("/a", "/c")) && Do(fs, Change.Rename("/a", "/c"))["/ab"] == fs["/ab"]
  {
    hide UpToSlash, DirOf, InDir, HasMoved, MayMove, Placed;
    RoomForDir(fs, "/c", "c");
    assert "/ab"[2] == 'b' && "/ab"[1] == 'a';
    MovedAt(fs, "/a", "/c", "/ab");
  }

  lemma SplitMoves(fs: FS)
    requires fs.Keys == {"/", "/a", "/ab"} && fs["/"].Dir? && fs["/a"].Dir? && fs["/ab"].File?
    ensures MayMove(fs, "/a", "/c") && "/ab" in Do(fs, Change.Rename("/a", "/c"))
    ensures Do(fs, Change.Rename("/a", "/c"))["/ab"] == fs["/ab"] && Relocated("/ab", "/a", "/c") == "/ab"
  {
    hide Do, MayMove, HasMoved, CanRename, Relocated;
    SplitTree(fs);
    RenameMeans(fs, "/a", "/c");
  }

  lemma SplitReplayed(fs: FS, cache: FS, s: seq<Record>)
    requires fs == map["/" := Dir, "/a" := Dir, "/ab" := File([1])]
    requires s == [Plain(FSYNC, "/cb", "", 0), RenameRecord("/a", "/c")]
    ensures "/ab" in WriteBackAll(Replay(fs, s), cache, WriteBacks(s))
    ensures WriteBackAll(Replay(fs, s), cache, WriteBacks(s))["/ab"] == File([1])
  {
    hide Do, WriteBackAll, Replay, WriteBacks, Overlaid;
    SplitTree(fs);
    SplitBacks(s);
    var t := [s[0]];
    assert s == t + [s[1]] && t == [] + [s[0]];
    NothingReplayed(fs);
    ReplayMore(fs, [], s[0]);
    ReplayMore(fs, t, s[1]);
    WriteBackAt(Replay(fs, s), cache, ["/cb"], "/ab");
  }

  lemma NothingReplayed(fs: FS)
    ensures Replay(fs, []) == fs
  {
  }

  lemma SplitBacks(s: seq<Record>)
    requires s == [Plain(FSYNC, "/cb", "", 0), RenameRecord("/a", "/c")]
    ensures WriteBacks(s) == ["/cb"]
  {
    var t := [s[0]];
    assert s[..1] == t && t[..0] == [] && WriteBacks([]) == [] && WriteBacks(t) == ["/cb"];
  }
}
