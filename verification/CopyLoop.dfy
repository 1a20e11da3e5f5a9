/** Copying one file over another through a window whose size follows the transfer rate. */
module CopyLoop {
  import opened Journal
  import opened JournalFile

  const WINDOW_MIN: nat := 0x1000
  const WINDOW_MAX: nat := 0x2_0000

  /** An open file. */
  class Handle {
    var bytes: seq<byte>

    constructor (content: seq<byte>)
      ensures bytes == content
    {
      bytes := content;
    }

    method Pread(n: nat, offset: nat) returns (b: seq<byte>)
      ensures offset + n <= |bytes| ==> b == bytes[offset..offset + n]
      ensures |b| <= n
    {
      if offset >= |bytes| { return []; }
      var upTo := if offset + n <= |bytes| then offset + n else |bytes|;
      b := bytes[offset..upTo];
    }

    method Pwrite(b: seq<byte>, offset: nat)
      requires offset <= |bytes| || b == []
      modifies this
      ensures bytes == if offset <= |old(bytes)| then PutAt(old(bytes), offset, b) else old(bytes)
    {
      if offset <= |bytes| {
        bytes := PutAt(bytes, offset, b);
      }
    }
  }

  /** Content with `b` written at `offset`, growing it if need be. */
  function PutAt(s: seq<byte>, offset: nat, b: seq<byte>): (r: seq<byte>)
    requires offset <= |s|
    ensures |r| == if offset + |b| <= |s| then |s| else offset + |b|
    ensures forall k :: 0 <= k < |r| ==> r[k] == if offset <= k < offset + |b| then b[k - offset] else s[k]
  {
    s[..offset] + b + if offset + |b| <= |s| then s[offset + |b|..] else []
  }

  /** What may go wrong at one turn of the loop: the file system quits before or after reading, the
      source gives fewer bytes, only part of the window is written, the quit comes after the write, or
      there is no memory for a larger window. */
  datatype Mishap = None | QuitBefore | ShortRead(n: nat) | QuitBetween | ShortWrite(n: nat) | QuitAfter | NoMemory

  /** What goes wrong keeps `tocopy` bytes from being copied, or ends the copy after them. */
  ghost predicate Hinders(m: Mishap, tocopy: nat) {
    match m
    case None => false
    case NoMemory => false
    case ShortRead(n) => n < tocopy
    case ShortWrite(n) => n < tocopy
    case _ => true
  }

  /** The bytes of `tocopy` that are copied in spite of it. */
  ghost function Passed(m: Mishap, tocopy: nat): nat {
    match m
    case QuitBefore => 0
    case QuitBetween => 0
    case ShortRead(n) => if n < tocopy then 0 else tocopy
    case ShortWrite(n) => if n < tocopy then n else tocopy
    case _ => tocopy
  }

  /** One turn: the microseconds the clock shows since the last turn and since the first. */
  datatype Turn = Turn(interval: int, overall: int, mishap: Mishap)

  /** `Crashed`: the rate is a division by 0. */
  datatype Outcome = Copied | Interrupted | Crashed

  /** The clock does not seem to have moved, since the last turn or since the first. */
  predicate Stopped(turn: Turn) {
    turn.interval == 0 || turn.overall == 0
  }

  /** Division as the machine does it, towards 0. */
  function Quotient(n: nat, d: int): int
    requires d != 0
  {
    if d > 0 then n / d else -(n / -d)
  }

  /** Fewer than 10 bytes a millisecond. */
  ghost predicate Slow(offset: nat, overall: int) {
    overall < 0 || offset * 1000 < 10 * overall
  }

  /** More than 100 bytes a millisecond. */
  ghost predicate Fast(offset: nat, overall: int) {
    overall > 0 && offset * 1000 >= 101 * overall
  }

  lemma RateMeans(offset: nat, overall: int)
    requires overall != 0
    ensures Quotient(offset * 1000, overall) < 10 <==> Slow(offset, overall)
    ensures Quotient(offset * 1000, overall) > 100 <==> Fast(offset, overall)
  {
    var n := offset * 1000;
    if overall > 0 {
      Below(n, overall, 10);
      Below(n, overall, 101);
    } else {
      Below(n, -overall, 0);
    }
  }

  lemma Below(n: nat, d: nat, c: nat)
    requires d > 0
    ensures n / d < c <==> n < c * d
  {
    var q := n / d;
    assert n == q * d + n % d;
    if q < c {
      Times(q + 1, c, d);
      assert (q + 1) * d == q * d + d;
    } else {
      Times(c, q, d);
    }
  }

  lemma {:induction false} Times(a: nat, b: nat, d: nat)
    requires a <= b
    ensures a * d <= b * d
  {
    if a < b {
      Times(a, b - 1, d);
      assert b * d == (b - 1) * d + d;
    }
  }

  ghost predicate PowerOfTwo(n: nat)
    decreases n
  {
    n == 1 || (n > 1 && n % 2 == 0 && PowerOfTwo(n / 2))
  }

  /** The window sizes that are ever used. */
  ghost predicate WindowOk(window: nat, alloced: nat) {
    PowerOfTwo(window) && WINDOW_MIN <= window <= WINDOW_MAX && window <= alloced <= WINDOW_MAX
  }

  /** The target after `n` bytes of the source were copied over its beginning. */
  function CopiedUpTo(target: seq<byte>, source: seq<byte>, n: nat): seq<byte>
    requires n <= |source|
  {
    Overlaid(target, source[..n])
  }

  lemma CopiedMore(target: seq<byte>, source: seq<byte>, offset: nat, n: nat)
    requires offset + n <= |source|
    ensures offset <= |CopiedUpTo(target, source, offset)|
    ensures PutAt(CopiedUpTo(target, source, offset), offset, source[offset..offset + n]) == CopiedUpTo(target, source, offset + n)
  {
    assert source[..offset + n] == source[..offset] + source[offset..offset + n];
  }

  lemma {:induction false} Doubled(a: nat, b: nat)
    requires PowerOfTwo(a) && PowerOfTwo(b) && a < b
    ensures 2 * a <= b
    decreases a
  {
    if a > 1 {
      Doubled(a / 2, b / 2);
    }
  }

  /** Halving and doubling stay within the bounds. */
  lemma WindowChanged(window: nat, alloced: nat)
    requires WindowOk(window, alloced)
    ensures window > WINDOW_MIN ==> WindowOk(window / 2, alloced)
    ensures window < WINDOW_MAX ==> WindowOk(window * 2, if alloced < window * 2 then window * 2 else alloced)
  {
    assert PowerOfTwo(WINDOW_MIN) && PowerOfTwo(WINDOW_MAX);
    if window > WINDOW_MIN {
      Doubled(WINDOW_MIN, window);
    }
    if window < WINDOW_MAX {
      Doubled(window, WINDOW_MAX);
      assert (window * 2) / 2 == window;
    }
  }

  /** One turn of the copy: reads a window, writes it at the same place. */
  method CopyWindow(source: Handle, target: Handle, offset: nat, tocopy: nat, mishap: Mishap, ghost before: seq<byte>)
    returns (ok: bool, ghost copied: nat)
    requires source != target && offset + tocopy <= |source.bytes|
    requires target.bytes == CopiedUpTo(before, source.bytes, offset)
    modifies target
    ensures (ok <==> !Hinders(mishap, tocopy)) && (ok ==> copied == offset + tocopy)
    ensures copied == offset + Passed(mishap, tocopy) <= offset + tocopy
    ensures target.bytes == CopiedUpTo(before, source.bytes, copied)
  {
    hide Overlaid;
    copied := offset;
    if mishap.QuitBefore? { return false, copied; }
    var buffer := source.Pread(if mishap.ShortRead? then Smaller(mishap.n, tocopy) else tocopy, offset);
    if |buffer| != tocopy { return false, copied; }
    if mishap.QuitBetween? { return false, copied; }
    var written := if mishap.ShortWrite? then Smaller(mishap.n, tocopy) else tocopy;
    CopiedMore(before, source.bytes, offset, written);
    assert buffer[..written] == source.bytes[offset..offset + written];
    target.Pwrite(buffer[..written], offset);
    copied := offset + written;
    ok := written == tocopy && !mishap.QuitAfter?;
  }

  /** The window follows the rate; a larger one may need a larger buffer. */
  method AdjustWindow(window: nat, alloced: nat, rate: int, noMemory: bool) returns (ok: bool, window': nat, alloced': nat)
    requires WindowOk(window, alloced)
    ensures WindowOk(window', alloced') && alloced' == if window' > alloced then window' else alloced
    ensures !ok <==> noMemory && rate > 100 && window < WINDOW_MAX && alloced < window * 2
    ensures ok && rate < 10 ==> window' == if window > WINDOW_MIN then window / 2 else window
    ensures ok && rate > 100 ==> window' == if window < WINDOW_MAX then window * 2 else window
    ensures ok && 10 <= rate <= 100 ==> window' == window
  {
    WindowChanged(window, alloced);
    ok, window', alloced' := true, window, alloced;
    if rate < 10 && window > WINDOW_MIN {
      window' := window / 2;
    } else if rate > 100 && window < WINDOW_MAX {
      if alloced < window * 2 {
        if noMemory { return false, window, alloced; }
        alloced' := window * 2;
      }
      window' := window * 2;
    }
  }

  /** How the copy goes on from turn to turn: at turn `k` it is at `at[k]` with a window of `window[k]`; nothing
      kept it from copying this much, something was left, the clock moved, and the window follows the rate. A
      window larger than all before it needs memory. */
  ghost predicate GoesOn(total: nat, turn: nat -> Turn, at: seq<nat>, window: seq<nat>, k: nat)
    requires k + 1 < |at| && k + 1 < |window|
  {
    && at[k + 1] == at[k] + window[k] < total && !Hinders(turn(k).mishap, window[k])
    && turn(k).interval != 0 && turn(k).overall != 0
    && window[k + 1] == (
         if Slow(at[k + 1], turn(k).overall) && window[k] > WINDOW_MIN then window[k] / 2
         else if Fast(at[k + 1], turn(k).overall) && window[k] < WINDOW_MAX then window[k] * 2
         else window[k])
    && (turn(k).mishap.NoMemory? ==> !Larger(window, k, window[k + 1]))
  }

  /** `w` is larger than any window up to turn `k`. */
  ghost predicate Larger(window: seq<nat>, k: nat, w: nat)
    requires k < |window|
  {
    forall j :: 0 <= j <= k ==> window[j] < w
  }

  ghost predicate Course(total: nat, turn: nat -> Turn, at: seq<nat>, window: seq<nat>) {
    && |at| == |window| > 0 && at[0] == 0 && window[0] == WINDOW_MIN
    && forall k: nat :: k + 1 < |at| ==> GoesOn(total, turn, at, window, k)
  }

  /** How the copy ends at a turn that began at `at`: all is copied that was asked for; or something hinders
      it, or there is no memory for a window larger than all before; or the clock has not moved though
      something is left to copy, which is a division by zero. */
  ghost predicate Ended(total: nat, turn: Turn, at: nat, window: seq<nat>, r: Outcome, copied: nat)
    requires window != [] && at <= total
  {
    var w := window[|window| - 1];
    var tocopy := if total - at < w then total - at else w;
    match r
    case Copied => !Hinders(turn.mishap, tocopy) && copied == at + tocopy == total
    case Crashed => !Hinders(turn.mishap, tocopy) && copied == at + w < total && (turn.interval == 0 || turn.overall == 0)
    case Interrupted =>
      if Hinders(turn.mishap, tocopy) then copied == at + Passed(turn.mishap, tocopy) else
        && turn.mishap.NoMemory? && copied == at + w < total && turn.interval != 0 && turn.overall != 0
        && Fast(copied, turn.overall) && w < WINDOW_MAX && Larger(window, |window| - 1, w * 2)
  }

  /** The buffer is as large as the largest window so far. */
  ghost predicate Fits(window: seq<nat>, alloced: nat) {
    (forall j :: 0 <= j < |window| ==> window[j] <= alloced) && alloced in window
  }

  lemma FitsExactly(window: seq<nat>, alloced: nat, w: nat)
    requires window != [] && Fits(window, alloced)
    ensures Larger(window, |window| - 1, w) <==> alloced < w
    ensures Fits(window + [w], if w > alloced then w else alloced)
  {
    var all := window + [w];
    assert all[|window|] == w;
    var j :| 0 <= j < |window| && window[j] == alloced;
    assert all[j] == alloced;
  }

  /** A turn more that went well. */
  lemma CourseOn(total: nat, turn: nat -> Turn, at: seq<nat>, window: seq<nat>, a: nat, w: nat)
    requires Course(total, turn, at, window)
    requires GoesOn(total, turn, at + [a], window + [w], |at| - 1)
    ensures Course(total, turn, at + [a], window + [w])
  {
    hide Slow, Fast, Hinders;
    forall k: nat | k < |at|
      ensures GoesOn(total, turn, at + [a], window + [w], k)
    {
      if k + 1 < |at| {
        assert GoesOn(total, turn, at, window, k);
        assert (window + [w])[..k + 1] == window[..k + 1];
        assert forall j :: 0 <= j <= k ==> (window + [w])[j] == window[j];
      }
    }
  }

  /** The turn goes on as the rate and the memory have it. */
  lemma TurnOn(total: nat, turn: nat -> Turn, at: seq<nat>, window: seq<nat>, alloced: nat, rate: int, w: nat)
    requires Course(total, turn, at, window) && Fits(window, alloced)
    requires
      var k, a := |at| - 1, at[|at| - 1] + window[|at| - 1];
      && a < total && !Hinders(turn(k).mishap, window[k]) && turn(k).interval != 0 && turn(k).overall != 0
      && rate == Quotient(a * 1000, turn(k).overall)
      && (rate < 10 ==> w == if window[k] > WINDOW_MIN then window[k] / 2 else window[k])
      && (rate > 100 ==> w == if window[k] < WINDOW_MAX then window[k] * 2 else window[k])
      && (10 <= rate <= 100 ==> w == window[k])
      && (turn(k).mishap.NoMemory? ==> w <= alloced)
    ensures Course(total, turn, at + [at[|at| - 1] + window[|at| - 1]], window + [w])
    ensures Fits(window + [w], if w > alloced then w else alloced)
  {
    hide Quotient, Hinders;
    var k, a := |at| - 1, at[|at| - 1] + window[|at| - 1];
    RateMeans(a, turn(k).overall);
    FitsExactly(window, alloced, w);
    hide Fits, Slow, Fast, Course;
    assert forall j :: 0 <= j <= k ==> (window + [w])[j] == window[j];
    CourseOn(total, turn, at, window, a, w);
  }

  /** Copies a file over another. `turn` says what happens at each turn; `size` is what the metadata says. `at`
      and `window` tell where it was at each turn and how large the window was. The target begins with what
      was copied of the source, and is otherwise as it was. */
  method TransferFile(source: Handle, target: Handle, size: nat, turn: nat -> Turn)
    returns (r: Outcome, ghost copied: nat, turns: nat, ghost at: seq<nat>, ghost window: seq<nat>)
    requires source != target
    modifies target
    ensures var total := if size < |source.bytes| then size else |source.bytes|;
            && Course(total, turn, at, window) && |at| == turns + 1 && at[turns] <= total
            && Ended(total, turn(turns), at[turns], window, r, copied)
    ensures copied <= |source.bytes|
    ensures |target.bytes| == if copied < |old(target.bytes)| then |old(target.bytes)| else copied
    ensures forall k :: 0 <= k < |target.bytes| ==> target.bytes[k] == if k < copied then source.bytes[k] else old(target.bytes)[k]
    ensures target.bytes == CopiedUpTo(old(target.bytes), source.bytes, copied)
  {
    hide CopiedUpTo, Course, Fits, PowerOfTwo, Slow, Fast, Quotient, Hinders, Passed, Larger;
    var remains: nat := Smaller(size, |source.bytes|);
    ghost var total := remains;
    var window_size: nat, alloced: nat := WINDOW_MIN, WINDOW_MIN;
    var offset: nat := 0;
    copied, turns, at, window := 0, 0, [0], [WINDOW_MIN];
    NothingCopied(target.bytes, source.bytes);
    CourseBegins(total, turn);
    while true
      invariant offset + remains == total <= |source.bytes| && copied == offset
      invariant target.bytes == CopiedUpTo(old(target.bytes), source.bytes, offset)
      invariant WindowOk(window_size, alloced) && Fits(window, alloced)
      invariant |at| == |window| == turns + 1 && at[turns] == offset && window[turns] == window_size
      invariant Course(total, turn, at, window)
      decreases remains
    {
      var mishap := turn(turns).mishap;
      var tocopy := Smaller(remains, window_size);
      assert tocopy <= alloced;
      var ok;
      ok, copied := CopyWindow(source, target, offset, tocopy, mishap, old(target.bytes));
      CopiedMeans(old(target.bytes), source.bytes, copied);
      if !ok { return Interrupted, copied, turns, at, window; }
      offset := offset + tocopy;
      remains := remains - tocopy;
      if remains == 0 { break; }
      if Stopped(turn(turns)) { return Crashed, copied, turns, at, window; }
      var rate := Quotient(offset * 1000, turn(turns).overall);
      RateMeans(offset, turn(turns).overall);
      FitsExactly(window, alloced, window_size * 2);
      ghost var before := alloced;
      ok, window_size, alloced := AdjustWindow(window_size, alloced, rate, mishap.NoMemory?);
      if !ok { return Interrupted, copied, turns, at, window; }
      TurnOn(total, turn, at, window, before, rate, window_size);
      turns, at, window := turns + 1, at + [offset], window + [window_size];
    }
    r := Copied;
  }

  lemma CourseBegins(total: nat, turn: nat -> Turn)
    ensures Course(total, turn, [0], [WINDOW_MIN]) && Fits([WINDOW_MIN], WINDOW_MIN)
  {
  }

  lemma CopiedMeans(target: seq<byte>, source: seq<byte>, n: nat)
    requires n <= |source|
    ensures var r := CopiedUpTo(target, source, n);
            && |r| == (if n < |target| then |target| else n)
            && forall k :: 0 <= k < |r| ==> r[k] == if k < n then source[k] else target[k]
  {
  }

  lemma ClockMoved(total: nat, turn: nat -> Turn, at: seq<nat>, window: seq<nat>)
    requires Course(total, turn, at, window) && |at| > 1
    ensures turn(0).interval != 0
  {
    assert GoesOn(total, turn, at, window, 0);
  }

  /** A file of more than one window, a clock that has not moved when the first was copied, and
      otherwise no mishap. */
  method StandingClock(source: Handle, target: Handle, turn: nat -> Turn) returns (r: Outcome)
    requires source != target && |source.bytes| > WINDOW_MIN
    requires turn(0).interval == 0 && forall k: nat :: turn(k).mishap.None?
    modifies target
    ensures r.Crashed?
  {
    ghost var copied, at, window;
    var turns;
    r, copied, turns, at, window := TransferFile(source, target, |source.bytes|, turn);
    if turns > 0 { ClockMoved(|source.bytes|, turn, at, window); }
  }

  lemma NothingCopied(target: seq<byte>, source: seq<byte>)
    ensures CopiedUpTo(target, source, 0) == target
    ensures PowerOfTwo(WINDOW_MIN)
  {
    assert source[..0] == [];
  }

  /** Without cutting the target first, copying a whole file makes the target equal to it exactly if
      the target was not longer. */
  lemma CopyExact(target: seq<byte>, source: seq<byte>)
    ensures CopiedUpTo(target, source, |source|) == source <==> |target| <= |source|
  {
    assert source[..|source|] == source;
  }
}
