/** A directory tree as the kernel sees it, and what the operations of the journal do to it. */
module Namespace {
  import opened JournalFile
  import opened PathNames

  datatype Node = Dir | File(content: seq<byte>) | Link(target: string) | Special

  type FS = map<string, Node>

  datatype Change =
    | Mknod(path: string)
    | Mkspecial(path: string)
    | Mkdir(path: string)
    | Symlink(path: string, target: string)
    | Unlink(path: string)
    | Rmdir(path: string)
    | Rename(path: string, to: string)
    | Truncate(path: string, size: nat)
    | Nothing

  /** `p` is `d` or lies below it. */
  predicate Within(d: string, p: string) {
    p == d || IsBelow(d, p)
  }

  function UpToSlash(p: string): (r: string)
    ensures r <= p
  {
    if p == "" || p[|p| - 1] == '/' then p else UpToSlash(p[..|p| - 1])
  }

  /** The directory a path belongs in. */
  function DirOf(p: string): string {
    var d := UpToSlash(p);
    if |d| <= 1 then "/" else d[..|d| - 1]
  }

  lemma {:induction false} UpToSlashJoined(d: string, n: string)
    requires d != "" && d[|d| - 1] == '/' && '/' !in n
    ensures UpToSlash(d + n) == d
    decreases |n|
  {
    if n == "" {
      assert d + n == d;
    } else {
      assert (d + n)[..|d + n| - 1] == d + n[..|n| - 1];
      UpToSlashJoined(d, n[..|n| - 1]);
    }
  }

  lemma DirOfJoined(p: string, d: string, n: string)
    requires IsJoin(p, d, n)
    ensures DirOf(p) == d
  {
    assert p == Prefix(d) + "/" + n;
    UpToSlashJoined(Prefix(d) + "/", n);
  }

  /** The directory `p` belongs in is there. */
  predicate InDir(fs: FS, p: string) {
    && |p| > 1 && p[0] == '/' && p[|p| - 1] != '/' && p == Join(DirOf(p), p[|UpToSlash(p)|..])
    && DirOf(p) in fs && fs[DirOf(p)].Dir?
  }

  /** `p` is a name in a directory that is there. */
  ghost predicate Placed(fs: FS, p: string) {
    exists d, n :: IsJoin(p, d, n) && d in fs && fs[d].Dir?
  }

  lemma {:induction false} NoSlashAfter(p: string)
    ensures '/' !in p[|UpToSlash(p)|..]
  {
    if p != "" && p[|p| - 1] != '/' {
      var q := p[..|p| - 1];
      NoSlashAfter(q);
      assert p[|UpToSlash(p)|..] == q[|UpToSlash(q)|..] + [p[|p| - 1]];
    }
  }

  lemma InDirMeans(fs: FS, p: string)
    ensures InDir(fs, p) <==> Placed(fs, p)
  {
    if InDir(fs, p) {
      NoSlashAfter(p);
      assert IsJoin(p, DirOf(p), p[|UpToSlash(p)|..]);
    }
    if Placed(fs, p) {
      var d, n :| IsJoin(p, d, n) && d in fs && fs[d].Dir?;
      assert p == Prefix(d) + "/" + n;
      UpToSlashJoined(Prefix(d) + "/", n);
      DirOfJoined(p, d, n);
    }
  }

  /** Renaming never replaces anything. */
  predicate CanRename(fs: FS, from: string, to: string) {
    from in fs && from != "/" && InDir(fs, to) && !Within(from, to) && forall q :: q in fs ==> !Within(to, q)
  }

  /** The operation succeeds. */
  predicate Applies(fs: FS, ch: Change) {
    match ch
    case Mknod(p) => p !in fs && InDir(fs, p)
    case Mkspecial(p) => p !in fs && InDir(fs, p)
    case Mkdir(p) => p !in fs && InDir(fs, p)
    case Symlink(p, _) => p !in fs && InDir(fs, p)
    case Unlink(p) => p in fs && (fs[p].File? || fs[p].Link?)
    case Rmdir(p) => p in fs && fs[p].Dir? && p != "/" && forall q :: q in fs ==> !IsBelow(p, q)
    case Rename(p, to) => CanRename(fs, p, to)
    case Truncate(p, _) => p in fs && fs[p].File?
    case Nothing => true
  }

  function Resized(s: seq<byte>, n: nat): (r: seq<byte>)
    ensures |r| == n
  {
    if n <= |s| then s[..n] else s + seq(n - |s|, i => 0)
  }

  /** Where a path goes when `from` is renamed to `to`. */
  function Relocated(p: string, from: string, to: string): string {
    if Within(from, p) then to + p[|from|..] else p
  }

  function MovedKeys(fs: FS, from: string, to: string): set<string> {
    set p | p in fs :: Relocated(p, from, to)
  }

  /** Where what is at `q` after a renaming was before. */
  function SourceOf(fs: FS, from: string, to: string, q: string): string {
    if Within(to, q) && from + q[|to|..] in fs then from + q[|to|..] else q
  }

  /** All that was at `from` or below it is at `to` or below it. */
  function MovedTree(fs: FS, from: string, to: string): FS {
    map q | q in MovedKeys(fs, from, to) ::
      if SourceOf(fs, from, to, q) in fs then fs[SourceOf(fs, from, to, q)] else Dir
  }

  /** The tree after the operation; one that fails changes nothing. */
  function Do(fs: FS, ch: Change): FS {
    if !Applies(fs, ch) then fs else
    match ch
    case Mknod(p) => fs[p := File([])]
    case Mkspecial(p) => fs[p := Special]
    case Mkdir(p) => fs[p := Dir]
    case Symlink(p, target) => fs[p := Link(target)]
    case Unlink(p) => fs - {p}
    case Rmdir(p) => fs - {p}
    case Rename(p, to) => MovedTree(fs, p, to)
    case Truncate(p, n) => fs[p := File(Resized(fs[p].content, n))]
    case Nothing => fs
  }

  // ---------------------------------------------------------------- what cutting and renaming mean

  /** The first `n` bytes of a content, zeros where it had less. */
  ghost predicate CutTo(was: seq<byte>, n: nat, now: seq<byte>) {
    |now| == n && forall i :: 0 <= i < n ==> now[i] == if i < |was| then was[i] else 0
  }

  lemma ResizedMeans(was: seq<byte>, n: nat)
    ensures CutTo(was, n, Resized(was, n))
  {
  }

  /** Something but the root is at `from`, nothing at `to` or below it, and `to` is a name in a directory
      that is not `from` and does not lie below it. */
  ghost predicate MayMove(fs: FS, from: string, to: string) {
    && from in fs && from != "/" && Placed(fs, to) && to != from && !(from + "/" <= to)
    && to !in fs && forall q :: q in fs ==> !(to + "/" <= q)
  }

  /** What was at `from` is at `to`, what was below it has its path begin with `to` instead, all else is
      where it was, and there is nothing besides. */
  ghost predicate HasMoved(fs: FS, fs': FS, from: string, to: string) {
    && (forall q :: q in fs ==>
          var q' := if q == from then to else if from + "/" <= q then to + q[|from|..] else q;
          q' in fs' && fs'[q'] == fs[q])
    && (forall q' :: q' in fs' ==>
          exists q :: q in fs && q' == if q == from then to else if from + "/" <= q then to + q[|from|..] else q)
  }

  lemma RenameMeans(fs: FS, from: string, to: string)
    ensures CanRename(fs, from, to) <==> MayMove(fs, from, to)
    ensures MayMove(fs, from, to) ==> HasMoved(fs, MovedTree(fs, from, to), from, to)
  {
    InDirMeans(fs, to);
    if MayMove(fs, from, to) { MovedTreeMeans(fs, from, to); }
  }

  lemma MovedTreeMeans(fs: FS, from: string, to: string)
    requires forall q :: q in fs ==> !Within(to, q)
    ensures HasMoved(fs, MovedTree(fs, from, to), from, to)
  {
    hide MovedTree;
    var fs' := MovedTree(fs, from, to);
    forall q | q in fs
      ensures Relocated(q, from, to) == if q == from then to else if from + "/" <= q then to + q[|from|..] else q
      ensures Relocated(q, from, to) in fs' && fs'[Relocated(q, from, to)] == fs[q]
    {
      MovedAt(fs, from, to, q);
      if q == from { assert q[|from|..] == ""; }
    }
    forall q' | q' in fs'
      ensures exists q :: q in fs && q' == if q == from then to else if from + "/" <= q then to + q[|from|..] else q
    {
      MovedFrom(fs, from, to, q');
      var q := SourceOf(fs, from, to, q');
      assert q in fs && Relocated(q, from, to) == q';
    }
  }

  // ---------------------------------------------------------------- what an operation does at one path

  /** The operation puts something new at `q`. */
  predicate Creates(ch: Change, q: string) {
    (ch.Mknod? || ch.Mkspecial? || ch.Mkdir? || ch.Symlink?) && ch.path == q
  }

  /** Where what is at `q` after the operation was before. */
  function Before(fs: FS, ch: Change, q: string): string {
    if ch.Rename? then SourceOf(fs, ch.path, ch.to, q) else q
  }

  /** What the operation makes of the node that ends up at `q`. */
  function Cut(ch: Change, q: string, node: Node): Node {
    if ch.Truncate? && ch.path == q && node.File? then File(Resized(node.content, ch.size)) else node
  }

  lemma MovedBack(from: string, to: string, q: string)
    requires Within(to, q)
    ensures Within(from, from + q[|to|..]) && Relocated(from + q[|to|..], from, to) == q
  {
    if q != to {
      assert q == to + "/" + q[|to| + 1..];
      assert q[|to|..] == "/" + q[|to| + 1..];
    }
  }

  lemma MovedFrom(fs: FS, from: string, to: string, q: string)
    requires q in MovedTree(fs, from, to)
    ensures SourceOf(fs, from, to, q) in fs && Relocated(SourceOf(fs, from, to, q), from, to) == q
  {
    var p :| p in fs && Relocated(p, from, to) == q;
    if Within(from, p) {
      RelocatedWithin(from, to, p);
    } else if SourceOf(fs, from, to, q) != q {
      MovedBack(from, to, q);
    }
  }

  lemma DoneAt(fs: FS, ch: Change, q: string)
    requires Applies(fs, ch) && q in Do(fs, ch) && !Creates(ch, q)
    ensures Before(fs, ch, q) in fs && Do(fs, ch)[q] == Cut(ch, q, fs[Before(fs, ch, q)])
  {
    if ch.Rename? {
      MovedFrom(fs, ch.path, ch.to, q);
    }
  }

  lemma RelocatedWithin(from: string, to: string, p: string)
    requires Within(from, p)
    ensures Within(to, Relocated(p, from, to)) && from + Relocated(p, from, to)[|to|..] == p
  {
    assert p[..|from|] == from;
    var q := to + p[|from|..];
    assert q[|to|..] == p[|from|..];
    if p != from {
      assert p[|from|..] == "/" + p[|from| + 1..];
      assert q == to + "/" + p[|from| + 1..];
    }
  }

  /** Nothing is lost: each path is found again where it went. */
  lemma MovedAt(fs: FS, from: string, to: string, p: string)
    requires p in fs && forall q :: q in fs ==> !Within(to, q)
    ensures Relocated(p, from, to) in MovedTree(fs, from, to)
    ensures MovedTree(fs, from, to)[Relocated(p, from, to)] == fs[p]
  {
    if Within(from, p) {
      RelocatedWithin(from, to, p);
    }
    assert Relocated(p, from, to) in MovedKeys(fs, from, to);
  }
  // ---------------------------------------------------------------- trees of the same shape

  ghost predicate SameKind(a: Node, b: Node) {
    (a.Dir? && b.Dir?) || (a.File? && b.File?) || (a.Link? && a == b) || (a.Special? && b.Special?)
  }

  /** The same names, of the same kinds. */
  ghost predicate SameShape(u: FS, l: FS) {
    u.Keys == l.Keys && forall p :: p in u && p in l ==> SameKind(u[p], l[p])
  }

  lemma SameSuccess(u: FS, l: FS, ch: Change)
    requires SameShape(u, l)
    ensures Applies(u, ch) <==> Applies(l, ch)
  {
    assert forall p :: p in u <==> p in l;
  }

  lemma SameBefore(u: FS, l: FS, ch: Change, q: string)
    requires u.Keys == l.Keys
    ensures Before(u, ch, q) == Before(l, ch, q)
  {
    assert forall p :: p in u <==> p in l;
  }

  lemma SameKeys(u: FS, l: FS, ch: Change)
    requires SameShape(u, l)
    ensures Do(u, ch).Keys == Do(l, ch).Keys
  {
    SameSuccess(u, l, ch);
    if ch.Rename? {
      assert MovedKeys(u, ch.path, ch.to) == MovedKeys(l, ch.path, ch.to);
    }
  }

  /** An operation does the same to trees of the same shape, at each path. */
  lemma SameDone(u: FS, l: FS, ch: Change, q: string)
    requires SameShape(u, l) && Applies(l, ch) && q in Do(l, ch)
    ensures q in Do(u, ch)
    ensures
      if Creates(ch, q) then Do(u, ch)[q] == Do(l, ch)[q]
      else
        var p := Before(l, ch, q);
        p in u && p in l && Do(u, ch)[q] == Cut(ch, q, u[p]) && Do(l, ch)[q] == Cut(ch, q, l[p])
  {
    hide Do, Applies, Before, Cut;
    SameSuccess(u, l, ch);
    SameKeys(u, l, ch);
    assert q in Do(l, ch).Keys;
    if Creates(ch, q) {
      MadeAt(u, ch);
      MadeAt(l, ch);
    } else {
      SameBefore(u, l, ch, q);
      DoneAt(u, ch, q);
      DoneAt(l, ch, q);
    }
  }

  lemma MadeAt(fs: FS, ch: Change)
    requires Applies(fs, ch) && !ch.Nothing? && Creates(ch, ch.path)
    ensures ch.path in Do(fs, ch)
    ensures
      Do(fs, ch)[ch.path] ==
      if ch.Mknod? then File([]) else if ch.Mkspecial? then Special else if ch.Mkdir? then Dir else Link(ch.target)
  {
  }

  lemma ShapeKept(u: FS, l: FS, ch: Change)
    requires SameShape(u, l)
    ensures SameShape(Do(u, ch), Do(l, ch))
  {
    hide Do, Applies, Before;
    SameSuccess(u, l, ch);
    SameKeys(u, l, ch);
    NotApplied(u, ch);
    NotApplied(l, ch);
    if Applies(l, ch) {
      forall q | q in Do(u, ch) && q in Do(l, ch)
        ensures SameKind(Do(u, ch)[q], Do(l, ch)[q])
      {
        SameDone(u, l, ch, q);
        if Creates(ch, q) { MadeAt(l, ch); }
      }
    }
  }

  /** An operation that fails changes nothing. */
  lemma NotApplied(fs: FS, ch: Change)
    ensures !Applies(fs, ch) ==> Do(fs, ch) == fs
  {
  }

  /** Files of the same lengths. */
  ghost predicate SameSizes(a: FS, b: FS) {
    SameShape(a, b) && forall p :: p in a && p in b && a[p].File? && b[p].File? ==> |a[p].content| == |b[p].content|
  }

  lemma SizesKept(a: FS, b: FS, ch: Change)
    requires SameSizes(a, b)
    ensures SameSizes(Do(a, ch), Do(b, ch))
  {
    hide Do, Applies, Before;
    ShapeKept(a, b, ch);
    SameSuccess(a, b, ch);
    NotApplied(a, ch);
    NotApplied(b, ch);
    if Applies(b, ch) {
      forall q | q in Do(a, ch) && q in Do(b, ch)
        ensures Do(a, ch)[q].File? && Do(b, ch)[q].File? ==> |Do(a, ch)[q].content| == |Do(b, ch)[q].content|
      {
        SameDone(a, b, ch, q);
      }
    }
  }

  // ---------------------------------------------------------------- cached files

  /** What the operation does to the cached files. */
  function DoCached(cache: FS, ch: Change): FS {
    match ch
    case Mknod(p) => cache[p := File([])]
    case Unlink(p) => cache - {p}
    case Rename(p, to) => MovedTree(cache, p, to)
    case Truncate(p, n) => if p in cache && cache[p].File? then cache[p := File(Resized(cache[p].content, n))] else cache
    case _ => cache
  }

  /** What is shown of a cached content: zeros fill it up to the size of the file. */
  ghost predicate Shows(cached: seq<byte>, shown: seq<byte>) {
    |cached| <= |shown| && shown == Resized(cached, |shown|)
  }

  /** The view shows the cached files. */
  ghost predicate Cached(view: FS, cache: FS) {
    forall p :: p in cache ==> p in view && view[p].File? && cache[p].File? && Shows(cache[p].content, view[p].content)
  }

  /** A file is cached after the operation exactly if it is new or was cached before. */
  lemma CachedAt(view: FS, cache: FS, ch: Change, q: string)
    requires Cached(view, cache) && Applies(view, ch) && q in Do(view, ch)
    ensures q in DoCached(cache, ch) <==> if Creates(ch, q) then ch.Mknod? else Before(view, ch, q) in cache
    ensures q in DoCached(cache, ch) && !Creates(ch, q) ==>
              DoCached(cache, ch)[q] == Cut(ch, q, cache[Before(view, ch, q)])
    ensures q in DoCached(cache, ch) && Creates(ch, q) ==> DoCached(cache, ch)[q] == File([])
  {
    if ch.Rename? {
      MovedCached(view, cache, ch.path, ch.to, q);
    }
  }

  lemma MovedCached(view: FS, cache: FS, from: string, to: string, q: string)
    requires Cached(view, cache) && q in MovedTree(view, from, to) && forall p :: p in view ==> !Within(to, p)
    ensures q in MovedTree(cache, from, to) <==> SourceOf(view, from, to, q) in cache
    ensures q in MovedTree(cache, from, to) ==> MovedTree(cache, from, to)[q] == cache[SourceOf(view, from, to, q)]
  {
    MovedFrom(view, from, to, q);
    var p := SourceOf(view, from, to, q);
    if p in cache {
      MovedAt(cache, from, to, p);
    }
    if q in MovedTree(cache, from, to) {
      MovedFrom(cache, from, to, q);
      var p' := SourceOf(cache, from, to, q);
      RelocatedOnce(view, from, to, p, p');
    }
  }

  /** No two paths move to the same place. */
  lemma RelocatedOnce(fs: FS, from: string, to: string, p: string, p': string)
    requires p in fs && p' in fs && Relocated(p, from, to) == Relocated(p', from, to)
    requires forall q :: q in fs ==> !Within(to, q)
    ensures p == p'
  {
    if Within(from, p) { RelocatedWithin(from, to, p); }
    if Within(from, p') { RelocatedWithin(from, to, p'); }
  }

  lemma NoneElse(view: FS, cache: FS, ch: Change, q: string)
    requires Cached(view, cache) && Applies(view, ch) && q in DoCached(cache, ch)
    ensures q in Do(view, ch)
  {
    if ch.Rename? {
      MovedFrom(cache, ch.path, ch.to, q);
      MovedAt(view, ch.path, ch.to, SourceOf(cache, ch.path, ch.to, q));
    }
  }

  lemma CachedKept(view: FS, cache: FS, ch: Change)
    requires Cached(view, cache) && Applies(view, ch)
    ensures Cached(Do(view, ch), DoCached(cache, ch))
  {
    hide Do, Applies, Before, DoCached;
    forall q | q in DoCached(cache, ch)
      ensures q in Do(view, ch) && Do(view, ch)[q].File? && DoCached(cache, ch)[q].File?
      ensures Shows(DoCached(cache, ch)[q].content, Do(view, ch)[q].content)
    {
      NoneElse(view, cache, ch, q);
      CachedAt(view, cache, ch, q);
      if Creates(ch, q) { MadeAt(view, ch); } else { DoneAt(view, ch, q); }
    }
  }
}
