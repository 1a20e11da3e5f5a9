/** Backing one file up into the cache while it is opened, read and written: the worker and any number
    of other threads, as atomic steps. The file is not truncated meanwhile. */
module BackupReads {
  import opened JournalFile
  import opened CopyLoop

  datatype Status = NotAsked | Asked | InProgress | Ready | Failed

  datatype Worker = Idle | Queued | Started | Copying(offset: nat) | Failing | Unlinking

  datatype Cache = Absent | Present(bytes: seq<byte>)

  /** `transfered` is what readers may rely on; `written` tells of local writes. */
  datatype Backup = Backup(status: Status, worker: Worker, cache: Cache, transfered: nat, written: bool)

  datatype Action =
    | Open
    | Take
    | GiveUp
    | Create
    | Copy(n: nat)
    | Publish
    | Finish
    | Fail
    | SetError
    | Unlink
    | Write(offset: nat, buf: seq<byte>)

  /** Content read at `offset`, less of it at the end. */
  function Slice(s: seq<byte>, offset: nat, n: nat): seq<byte> {
    if offset >= |s| then [] else if offset + n <= |s| then s[offset..offset + n] else s[offset..]
  }

  /** A read is served from the cache; otherwise it goes to the source, or waits and then does. */
  predicate FromCache(b: Backup, offset: nat, n: nat) {
    b.status.Ready? || (b.status.InProgress? && b.transfered >= offset + n)
  }

  predicate Enabled(b: Backup, source: seq<byte>, a: Action) {
    match a
    case Open => true
    case Take => b.worker.Queued?
    case GiveUp => b.worker.Started?
    case Create => b.worker.Started?
    case Copy(n) => b.worker.Copying? && b.worker.offset + n <= |source| && b.cache.Present? && b.worker.offset <= |b.cache.bytes|
    case Publish => b.worker.Copying?
    case Finish => b.worker == Copying(|source|)
    case Fail => b.worker.Copying?
    case SetError => b.worker.Failing?
    case Unlink => b.worker.Unlinking?
    case Write(_, _) => b.status.Ready? && b.cache.Present?
  }

  /** Opening a file asks for it to be backed up, unless it is in the cache or on its way. */
  function Opened(b: Backup): Backup {
    if b.status.Asked? || b.status.InProgress? || b.status.Ready? then b
    else if b.cache.Present? then b.(status := Ready)
    else b.(status := Asked, worker := Queued)
  }

  function Next(b: Backup, source: seq<byte>, a: Action): Backup {
    if !Enabled(b, source, a) then b else
    match a
    case Open => Opened(b)
    case Take => b.(worker := Started, status := if b.status.Asked? then InProgress else b.status)
    case GiveUp => b.(worker := Idle)
    case Create =>
      if b.cache.Present? then b.(transfered := 0, worker := Idle)
      else b.(transfered := 0, cache := Present([]), worker := Copying(0))
    case Copy(n) =>
      var off := b.worker.offset;
      b.(cache := Present(PutAt(b.cache.bytes, off, source[off..off + n])), worker := Copying(off + n))
    case Publish => b.(transfered := b.worker.offset)
    case Finish => b.(status := Ready, worker := Idle)
    case Fail => b.(worker := Failing)
    case SetError => b.(status := Failed, transfered := 0, worker := Unlinking)
    case Unlink => b.(cache := Absent, worker := Idle)
    case Write(off, buf) => b.(cache := Present(Stored(b.cache.bytes, off, buf)), written := true)
  }

  /** Content after a write: a gap before it is filled with zeros, and writing nothing does nothing. */
  function Stored(s: seq<byte>, offset: nat, buf: seq<byte>): (r: seq<byte>)
    ensures buf == [] ==> r == s
    ensures buf != [] ==>
              && |r| == (if offset + |buf| <= |s| then |s| else offset + |buf|)
              && forall k :: 0 <= k < |r| ==>
                   r[k] == if offset <= k < offset + |buf| then buf[k - offset] else if k < |s| then s[k] else 0
  {
    if buf == [] then s else PutAt(if |s| < offset then s + seq(offset - |s|, i => 0) else s, offset, buf)
  }

  /** The file is opened after its backup failed and before what was copied of it is gone. */
  predicate InWindow(b: Backup, a: Action) {
    a.Open? && b.worker.Unlinking? && b.status.Failed?
  }

  /** Every step of the copy: the cache holds exactly what was copied so far, readers rely on no more
      than that, and nobody has written. */
  ghost predicate Inv(b: Backup, source: seq<byte>) {
    match b.worker
    case Copying(off) =>
      && b.status.InProgress? && !b.written && b.transfered <= off <= |source| && b.cache == Present(source[..off])
    case Failing =>
      && b.status.InProgress? && !b.written && b.cache.Present? && b.cache.bytes <= source && b.transfered <= |b.cache.bytes|
    case Unlinking =>
      && b.status.Failed? && !b.written && b.cache.Present? && b.cache.bytes <= source && b.transfered == 0
    case _ =>
      if b.status.Ready? then b.worker.Idle? && b.cache.Present? && (b.written || b.cache.bytes == source)
      else
        && !b.written && b.transfered == 0
        && (if b.status.NotAsked? then b.worker.Idle? && (b.cache.Absent? || b.cache.bytes == source) else b.cache.Absent?)
        && (b.worker.Queued? <==> b.status.Asked?) && (b.worker.Started? ==> b.status.InProgress?)
  }

  /** Whatever is read from the cache is what the source holds; the kernel never reads nothing. */
  ghost predicate ReadsRight(b: Backup, source: seq<byte>) {
    forall offset: nat, n: nat :: n > 0 && FromCache(b, offset, n) ==>
      b.cache.Present? && Slice(b.cache.bytes, offset, n) == Slice(source, offset, n)
  }

  lemma SlicePrefix(p: seq<byte>, s: seq<byte>, offset: nat, n: nat)
    requires p <= s && offset + n <= |p|
    ensures Slice(p, offset, n) == Slice(s, offset, n)
  {
    assert p == s[..|p|];
  }

  /** Until somebody writes, no reader sees anything but the source. */
  lemma ReadersSafe(b: Backup, source: seq<byte>)
    requires Inv(b, source) && !b.written
    ensures ReadsRight(b, source)
  {
    forall offset: nat, n: nat | n > 0 && FromCache(b, offset, n)
      ensures b.cache.Present? && Slice(b.cache.bytes, offset, n) == Slice(source, offset, n)
    {
      if !b.status.Ready? {
        if b.worker.Copying? || b.worker.Failing? {
          SlicePrefix(b.cache.bytes, source, offset, n);
        }
      }
    }
  }

  lemma StepKept(b: Backup, source: seq<byte>, a: Action)
    requires Inv(b, source) && !InWindow(b, a)
    ensures Inv(Next(b, source, a), source)
  {
    if a.Copy? && Enabled(b, source, a) {
      assert source[..b.worker.offset + a.n] == source[..b.worker.offset] + source[b.worker.offset..b.worker.offset + a.n];
    } else if a.Finish? && Enabled(b, source, a) {
      assert source[..|source|] == source;
    }
  }

  // ---------------------------------------------------------------- whole runs

  function Run(b: Backup, source: seq<byte>, s: seq<Action>): Backup {
    if s == [] then b else Next(Run(b, source, s[..|s| - 1]), source, s[|s| - 1])
  }

  /** No step of the run opens the file in the window after a failure. */
  ghost predicate Windowless(b: Backup, source: seq<byte>, s: seq<Action>) {
    forall k :: 0 <= k < |s| ==> !InWindow(Run(b, source, s[..k]), s[k])
  }

  ghost predicate Unwritten(s: seq<Action>) {
    forall k :: 0 <= k < |s| ==> !s[k].Write?
  }

  /** In every interleaving without such an opening the cache agrees with the source on all that
      readers rely on, until the backup is complete and somebody writes. */
  lemma {:induction false} EveryRun(b: Backup, source: seq<byte>, s: seq<Action>)
    requires Inv(b, source) && Windowless(b, source, s)
    ensures Inv(Run(b, source, s), source)
    ensures !b.written && Unwritten(s) ==> ReadsRight(Run(b, source, s), source)
  {
    RunKept(b, source, s);
    if !Run(b, source, s).written {
      ReadersSafe(Run(b, source, s), source);
    }
  }

  lemma {:induction false} RunKept(b: Backup, source: seq<byte>, s: seq<Action>)
    requires Inv(b, source) && Windowless(b, source, s)
    ensures Inv(Run(b, source, s), source)
    ensures !b.written && Unwritten(s) ==> !Run(b, source, s).written
  {
    if s != [] {
      var t := s[..|s| - 1];
      assert forall k :: 0 <= k < |t| ==> t[..k] == s[..k] && t[k] == s[k];
      RunKept(b, source, t);
      StepKept(Run(b, source, t), source, s[|s| - 1]);
      assert !InWindow(Run(b, source, s[..|s| - 1]), s[|s| - 1]);
    }
  }

  // ---------------------------------------------------------------- what is written, and what was copied

  /** The writes of a run that found the file in the cache. */
  ghost function Writes(b: Backup, source: seq<byte>, s: seq<Action>): (w: seq<Action>)
    ensures forall a :: a in w ==> a.Write?
  {
    if s == [] then [] else
      var before := Run(b, source, s[..|s| - 1]);
      var a := s[|s| - 1];
      Writes(b, source, s[..|s| - 1]) + if a.Write? && before.status.Ready? && before.cache.Present? then [a] else []
  }

  /** The byte at `k` is that of the last write there was at this place; else that of the source; else zero. */
  ghost function Latest(source: seq<byte>, w: seq<Action>, k: nat): byte
    requires forall a :: a in w ==> a.Write?
  {
    if w == [] then (if k < |source| then source[k] else 0) else
      var a := w[|w| - 1];
      if a.offset <= k < a.offset + |a.buf| then a.buf[k - a.offset] else Latest(source, w[..|w| - 1], k)
  }

  /** The file ends where the source does, or where the write ends that goes furthest. */
  ghost predicate EndsAt(source: seq<byte>, w: seq<Action>, n: nat) {
    && |source| <= n && (forall a :: a in w && a.Write? && a.buf != [] ==> a.offset + |a.buf| <= n)
    && (n == |source| || exists a :: a in w && a.Write? && a.buf != [] && a.offset + |a.buf| == n)
  }

  ghost predicate Holds(b: Backup, source: seq<byte>, w: seq<Action>)
    requires forall a :: a in w ==> a.Write?
  {
    if b.status.Ready? then
      && b.cache.Present? && EndsAt(source, w, |b.cache.bytes|)
      && forall k :: 0 <= k < |b.cache.bytes| ==> b.cache.bytes[k] == Latest(source, w, k)
    else w == []
  }

  /** In every run that opens the file in no such window a file that is ready holds, at each place, what was
      last written there, and what the source holds where nothing was written. */
  lemma {:induction false} WritesHold(b: Backup, source: seq<byte>, s: seq<Action>)
    requires Inv(b, source) && !b.written && Windowless(b, source, s)
    ensures Holds(Run(b, source, s), source, Writes(b, source, s))
    ensures Run(b, source, s).written <==> Writes(b, source, s) != []
  {
    hide Next, Inv, Latest, EndsAt;
    if s == [] {
      UnwrittenHolds(b, source);
    } else {
      var t, a := s[..|s| - 1], s[|s| - 1];
      PrefixWindowless(b, source, s, |t|);
      WritesHold(b, source, t);
      RunKept(b, source, t);
      assert !InWindow(Run(b, source, t), a);
      var w := Writes(b, source, t);
      assert w + [] == w;
      StepHolds(Run(b, source, t), source, a, w);
    }
  }

  lemma UnwrittenHolds(b: Backup, source: seq<byte>)
    requires Inv(b, source) && !b.written
    ensures Holds(b, source, [])
  {
  }

  lemma StepHolds(b: Backup, source: seq<byte>, a: Action, w: seq<Action>)
    requires Inv(b, source) && !InWindow(b, a) && (forall c :: c in w ==> c.Write?) && Holds(b, source, w)
    requires b.written <==> w != []
    ensures
      var b' := Next(b, source, a); var now := a.Write? && b.status.Ready? && b.cache.Present?;
      Holds(b', source, if now then w + [a] else w) && (b'.written <==> now || w != [])
  {
    if a.Write? && b.status.Ready? {
      WriteHolds(b, source, a, w);
    } else if !b.status.Ready? {
      StepKept(b, source, a);
      hide Inv;
      if Next(b, source, a).status.Ready? { ReadyHolds(Next(b, source, a), source); }
    }
  }

  lemma ReadyHolds(b: Backup, source: seq<byte>)
    requires Inv(b, source) && b.status.Ready? && !b.written
    ensures Holds(b, source, [])
  {
  }

  lemma WriteHolds(b: Backup, source: seq<byte>, a: Action, w: seq<Action>)
    requires b.status.Ready? && a.Write? && (forall c :: c in w ==> c.Write?) && Holds(b, source, w)
    ensures Holds(Next(b, source, a), source, w + [a])
  {
    hide EndsAt, Latest;
    EndMoves(source, w, a, |b.cache.bytes|);
    LatestAfter(source, w, a, b.cache.bytes);
  }

  lemma LatestAfter(source: seq<byte>, w: seq<Action>, a: Action, before: seq<byte>)
    requires a.Write? && (forall c :: c in w ==> c.Write?) && EndsAt(source, w, |before|)
    requires forall k :: 0 <= k < |before| ==> before[k] == Latest(source, w, k)
    ensures var after := Stored(before, a.offset, a.buf);
            forall k :: 0 <= k < |after| ==> after[k] == Latest(source, w + [a], k)
  {
    hide EndsAt, Latest, Stored;
    forall k | 0 <= k < |Stored(before, a.offset, a.buf)|
      ensures Stored(before, a.offset, a.buf)[k] == Latest(source, w + [a], k)
    {
      LatestMore(source, w, a, k);
      if k >= |before| { PastEnd(source, w, |before|, k); }
    }
  }

  lemma LatestMore(source: seq<byte>, w: seq<Action>, a: Action, k: nat)
    requires a.Write? && forall c :: c in w ==> c.Write?
    ensures Latest(source, w + [a], k) ==
            if a.offset <= k < a.offset + |a.buf| then a.buf[k - a.offset] else Latest(source, w, k)
  {
    assert (w + [a])[..|w|] == w;
  }

  lemma PastEnd(source: seq<byte>, w: seq<Action>, n: nat, k: nat)
    requires (forall a :: a in w ==> a.Write?) && EndsAt(source, w, n) && n <= k
    ensures Latest(source, w, k) == 0
  {
    Beyond(source, w, n, k);
  }

  lemma EndMoves(source: seq<byte>, w: seq<Action>, a: Action, n: nat)
    requires a.Write? && EndsAt(source, w, n)
    ensures EndsAt(source, w + [a], if a.buf == [] || a.offset + |a.buf| <= n then n else a.offset + |a.buf|)
  {
    assert a in w + [a];
    if n != |source| {
      var c :| c in w && c.Write? && c.buf != [] && c.offset + |c.buf| == n;
      assert c in w + [a];
    }
  }

  lemma {:induction false} Beyond(source: seq<byte>, w: seq<Action>, n: nat, k: nat)
    requires (forall a :: a in w ==> a.Write?) && n <= k && |source| <= n
    requires forall a :: a in w && a.Write? && a.buf != [] ==> a.offset + |a.buf| <= n
    ensures Latest(source, w, k) == 0
  {
    if w != [] {
      assert w[|w| - 1] in w;
      Beyond(source, w[..|w| - 1], n, k);
    }
  }

  ghost function Sum(sizes: seq<nat>): nat {
    if sizes == [] then 0 else Sum(sizes[..|sizes| - 1]) + sizes[|sizes| - 1]
  }

  /** A copy in windows of these sizes; after each the readers are told. */
  ghost function Copies(sizes: seq<nat>): seq<Action> {
    if sizes == [] then [] else Copies(sizes[..|sizes| - 1]) + [Copy(sizes[|sizes| - 1]), Publish]
  }

  lemma CopiesGoOn(b: Backup, source: seq<byte>, s: seq<Action>, a: Action)
    ensures Run(b, source, s + [a]) == Next(Run(b, source, s), source, a)
  {
    assert (s + [a])[..|s|] == s;
  }

  lemma CopyStep(source: seq<byte>, offset: nat, n: nat)
    requires offset + n <= |source|
    ensures Next(Backup(InProgress, Copying(offset), Present(source[..offset]), offset, false), source, Copy(n))
         == Backup(InProgress, Copying(offset + n), Present(source[..offset + n]), offset, false)
  {
    assert PutAt(source[..offset], offset, source[offset..offset + n]) == source[..offset + n];
  }

  lemma {:induction false} CopiedSoFar(b: Backup, source: seq<byte>, start: seq<Action>, sizes: seq<nat>)
    requires Run(b, source, start) == Backup(InProgress, Copying(0), Present([]), 0, false) && Sum(sizes) <= |source|
    ensures Run(b, source, start + Copies(sizes))
         == Backup(InProgress, Copying(Sum(sizes)), Present(source[..Sum(sizes)]), Sum(sizes), false)
  {
    hide Run;
    if sizes == [] {
      assert start + [] == start && source[..0] == [];
    } else {
      var t, n := sizes[..|sizes| - 1], sizes[|sizes| - 1];
      CopiedSoFar(b, source, start, t);
      var s := start + Copies(t);
      CopiesGoOn(b, source, s, Copy(n));
      CopiesGoOn(b, source, s + [Copy(n)], Publish);
      assert Copies(sizes) == Copies(t) + [Copy(n), Publish];
      assert start + Copies(sizes) == s + [Copy(n)] + [Publish];
      CopyStep(source, Sum(t), n);
    }
  }

  const FRESH: Backup := Backup(NotAsked, Idle, Absent, 0, false)

  lemma CopyBegins(source: seq<byte>)
    ensures Run(FRESH, source, [Open, Take, Create]) == Backup(InProgress, Copying(0), Present([]), 0, false)
  {
    hide Run;
    AtFirst(FRESH, source);
    CopiesGoOn(FRESH, source, [], Open);
    CopiesGoOn(FRESH, source, [Open], Take);
    CopiesGoOn(FRESH, source, [Open, Take], Create);
    assert [] + [Open] == [Open] && [Open] + [Take] == [Open, Take] && [Open, Take] + [Create] == [Open, Take, Create];
  }

  /** While it is copied, just those reads are served from the cache that end within what was copied, and they
      get what the source holds there. */
  lemma ServedMeanwhile(source: seq<byte>, sizes: seq<nat>, offset: nat, n: nat)
    requires Sum(sizes) <= |source|
    ensures
      var b := Run(FRESH, source, [Open, Take, Create] + Copies(sizes));
      && (FromCache(b, offset, n) <==> offset + n <= Sum(sizes))
      && b.cache.Present? && (offset + n <= Sum(sizes) ==> Slice(b.cache.bytes, offset, n) == source[offset..offset + n])
  {
    hide Run;
    CopyBegins(source);
    CopiedSoFar(FRESH, source, [Open, Take, Create], sizes);
  }

  /** A file that is opened, with no failure, gets there: whatever the sizes of the windows, when they make
      up the source the cache holds all of it. */
  lemma Completed(source: seq<byte>, sizes: seq<nat>)
    requires Sum(sizes) == |source|
    ensures Run(FRESH, source, [Open, Take, Create] + Copies(sizes) + [Finish]) == Backup(Ready, Idle, Present(source), |source|, false)
  {
    hide Run;
    CopyBegins(source);
    CopiedSoFar(FRESH, source, [Open, Take, Create], sizes);
    CopiesGoOn(FRESH, source, [Open, Take, Create] + Copies(sizes), Finish);
    assert source[..|source|] == source;
  }

  lemma AtFirst(b: Backup, source: seq<byte>)
    ensures Run(b, source, []) == b
  {
  }

  // ---------------------------------------------------------------- the window

  /** Opening the file in the window makes the partial copy count as complete; until it is taken out of
      the cache reads are right exactly if nothing was missing. */
  lemma WindowOpened(b: Backup, source: seq<byte>)
    requires Inv(b, source) && InWindow(b, Open)
    ensures Next(b, source, Open).status.Ready? && Doomed(Next(b, source, Open))
    ensures ReadsRight(Next(b, source, Open), source) <==> b.cache.bytes == source
  {
    var b' := Next(b, source, Open);
    if b.cache.bytes != source {
      var k := |b.cache.bytes|;
      assert FromCache(b', k, 1) && Slice(b'.cache.bytes, k, 1) == [] && Slice(source, k, 1) == [source[k]];
    }
  }

  /** The file counts as complete, and is gone from the cache or about to go. */
  ghost predicate Doomed(b: Backup) {
    b.status.Ready? && (b.worker.Unlinking? || (b.worker.Idle? && b.cache.Absent?))
  }

  /** No read and no write finds anything in the cache, though the file counts as complete. */
  ghost predicate Vanished(b: Backup) {
    b.status.Ready? && b.cache.Absent?
  }

  /** Whatever happens afterwards, writes included: once the worker has taken the file out of the cache
      it is gone for good, and no read from there is right. */
  lemma {:induction false} DoomedForGood(b: Backup, source: seq<byte>, more: seq<Action>)
    requires Doomed(b)
    ensures Doomed(Run(b, source, more)) && Vanished(Next(Run(b, source, more), source, Unlink))
    ensures !ReadsRight(Next(Run(b, source, more), source, Unlink), source)
  {
    if more != [] {
      DoomedForGood(b, source, more[..|more| - 1]);
    }
    assert FromCache(Next(Run(b, source, more), source, Unlink), 0, 1);
  }

  /** A run opens the file in no such window exactly if at no point of it the file counts as complete
      and is gone, or will be when the worker takes it out of the cache. As long as nobody writes, this
      is so exactly if all reads are right at each point, before and after that. */
  lemma {:induction false} WindowExact(b: Backup, source: seq<byte>, s: seq<Action>)
    requires Inv(b, source)
    ensures Windowless(b, source, s) <==>
            forall k :: 0 <= k <= |s| ==> !Vanished(Next(Run(b, source, s[..k]), source, Unlink))
    ensures !b.written && Unwritten(s) ==>
              (Windowless(b, source, s) <==>
               forall k :: 0 <= k <= |s| ==> ReadsRight(Run(b, source, s[..k]), source) &&
                                             ReadsRight(Next(Run(b, source, s[..k]), source, Unlink), source))
  {
    hide Next, Inv, ReadsRight;
    if Windowless(b, source, s) {
      forall k | 0 <= k <= |s|
        ensures !Vanished(Next(Run(b, source, s[..k]), source, Unlink))
        ensures !b.written && Unwritten(s) ==> ReadsRight(Run(b, source, s[..k]), source) &&
                                               ReadsRight(Next(Run(b, source, s[..k]), source, Unlink), source)
      {
        PrefixWindowless(b, source, s, k);
        EveryRun(b, source, s[..k]);
        RunKept(b, source, s[..k]);
        AfterUnlink(Run(b, source, s[..k]), source);
      }
    } else {
      var k := FirstOpening(b, source, s);
      PrefixRun(b, source, s, k);
      EveryRun(b, source, s[..k]);
      WindowOpened(Run(b, source, s[..k]), source);
      DoomedForGood(Run(b, source, s[..k + 1]), source, []);
    }
  }

  lemma PrefixWindowless(b: Backup, source: seq<byte>, s: seq<Action>, k: nat)
    requires Windowless(b, source, s) && k <= |s|
    ensures Windowless(b, source, s[..k]) && (Unwritten(s) ==> Unwritten(s[..k]))
  {
    forall i | 0 <= i < k
      ensures !InWindow(Run(b, source, s[..k][..i]), s[..k][i])
    {
      assert s[..k][..i] == s[..i];
    }
  }

  lemma AfterUnlink(b: Backup, source: seq<byte>)
    requires Inv(b, source)
    ensures !Vanished(Next(b, source, Unlink))
    ensures !b.written ==> ReadsRight(Next(b, source, Unlink), source)
  {
    hide ReadsRight;
    StepKept(b, source, Unlink);
    if !b.written { ReadersSafe(Next(b, source, Unlink), source); }
  }

  lemma PrefixRun(b: Backup, source: seq<byte>, s: seq<Action>, k: nat)
    requires k < |s|
    ensures Run(b, source, s[..k + 1]) == Next(Run(b, source, s[..k]), source, s[k])
  {
    assert s[..k + 1][..k] == s[..k] && s[..k + 1][k] == s[k];
  }

  lemma {:induction false} FirstOpening(b: Backup, source: seq<byte>, s: seq<Action>) returns (k: nat)
    requires !Windowless(b, source, s)
    ensures k < |s| && InWindow(Run(b, source, s[..k]), s[k]) && Windowless(b, source, s[..k])
  {
    var t := s[..|s| - 1];
    assert forall i :: 0 <= i < |t| ==> t[..i] == s[..i] && t[i] == s[i];
    if Windowless(b, source, t) {
      k := |s| - 1;
    } else {
      k := FirstOpening(b, source, t);
      assert t[..k] == s[..k];
    }
  }

  /** A run that gets there: the copy of one byte fails, and before the file is taken
      out of the cache it is opened again. */
  lemma WindowReached()
    ensures
      var b := Run(FRESH, [7], [Open, Take, Create, Fail, SetError]);
      Inv(FRESH, [7]) && Inv(b, [7]) && InWindow(b, Open) && !ReadsRight(Next(b, [7], Open), [7])
  {
    var b0 := FRESH;
    var s := [Open, Take, Create, Fail, SetError];
    assert s[..4] == [Open, Take, Create, Fail] && s[..3] == [Open, Take, Create] && s[..2] == [Open, Take];
    assert s[..4][..3] == s[..3] && s[..3][..2] == s[..2] && s[..2][..1] == [Open] && [Open][..0] == [];
    var b1 := Run(b0, [7], [Open]);
    assert b1 == Next(b0, [7], Open) == b0.(status := Asked, worker := Queued);
    var b2 := Run(b0, [7], s[..2]);
    assert b2 == Next(b1, [7], Take);
    var b3 := Run(b0, [7], s[..3]);
    assert b3 == Next(b2, [7], Create);
    var b4 := Run(b0, [7], s[..4]);
    assert b4 == Next(b3, [7], Fail);
    var b5 := Run(b0, [7], s);
    assert b5 == Next(b4, [7], SetError) == Backup(Failed, Unlinking, Present([]), 0, false);
    WindowOpened(b5, [7]);
  }
}
