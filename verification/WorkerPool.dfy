/** The threads around the transfer queue: any number of them ask for transfers, each type has its
    semaphore and its workers. Every step below is atomic. */
module WorkerPool {
  import opened TransferQueue

  /** The counters are per type of transfer: the semaphore, files queued but not posted yet, workers
      that woke up, workers that found the file system not quitting. `asked` and `served` are what
      was accepted and handed out so far, in order; `bug` tells that a worker found nothing. */
  datatype Pool = Pool(
    queue: seq<Item>, quitting: bool, bug: bool,
    sem: nat -> nat, unposted: nat -> nat, woken: nat -> nat, passed: nat -> nat,
    asked: nat -> seq<nat>, served: nat -> seq<nat>)

  datatype Action =
    | Enqueue(mfile: nat, kind: nat)
    | Post(kind: nat)
    | Wake(kind: nat)
    | Pass(kind: nat)
    | Exit(kind: nat)
    | Take(kind: nat)
    | Quit
    | Stop(kind: nat)

  function Idle(): Pool {
    Pool([], false, false, k => 0, k => 0, k => 0, k => 0, k => [], k => [])
  }

  function Up(f: nat -> nat, k: nat): nat -> nat {
    i => if i == k then f(i) + 1 else f(i)
  }

  function Down(f: nat -> nat, k: nat): nat -> nat {
    i => if i == k && f(i) > 0 then f(i) - 1 else f(i)
  }

  function Logged(f: nat -> seq<nat>, k: nat, x: nat): nat -> seq<nat> {
    i => if i == k then f(i) + [x] else f(i)
  }

  /** Whether a thread is at the point where it can take this step. */
  predicate Enabled(p: Pool, a: Action) {
    match a
    case Enqueue(_, _) => true
    case Post(k) => p.unposted(k) > 0
    case Wake(k) => p.sem(k) > 0
    case Pass(k) => p.woken(k) > 0 && !p.quitting
    case Exit(k) => p.woken(k) > 0 && p.quitting
    case Take(k) => p.passed(k) > 0
    case Quit => true
    case Stop(_) => p.quitting
  }

  ghost function Next(p: Pool, a: Action): Pool {
    if !Enabled(p, a) then p else
    match a
    case Enqueue(m, k) =>
      if Holds(p.queue, m) then p
      else p.(queue := p.queue + [Item(m, k)], unposted := Up(p.unposted, k), asked := Logged(p.asked, k, m))
    case Post(k) => p.(unposted := Down(p.unposted, k), sem := Up(p.sem, k))
    case Wake(k) => p.(sem := Down(p.sem, k), woken := Up(p.woken, k))
    case Pass(k) => p.(woken := Down(p.woken, k), passed := Up(p.passed, k))
    case Exit(k) => p.(woken := Down(p.woken, k))
    case Take(k) =>
      var i := FirstOf(p.queue, k);
      if i == |p.queue| then p.(bug := true)
      else p.(queue := Without(p.queue, i), passed := Down(p.passed, k), served := Logged(p.served, k, p.queue[i].mfile))
    case Quit => p.(quitting := true)
    case Stop(k) => p.(sem := Up(p.sem, k))
  }

  ghost function Run(s: seq<Action>): Pool {
    if s == [] then Idle() else Next(Run(s[..|s| - 1]), s[|s| - 1])
  }

  /** Until the file system quits, the queued files of a type are those still to be posted or woken
      up for, plus those a worker is already there for. */
  ghost predicate Balanced(p: Pool, k: nat) {
    && p.passed(k) <= |OfKind(p.queue, k)|
    && (!p.quitting ==> |OfKind(p.queue, k)| == p.sem(k) + p.woken(k) + p.passed(k) + p.unposted(k))
    && p.asked(k) == p.served(k) + OfKind(p.queue, k)
  }

  ghost predicate Inv(p: Pool) {
    !p.bug && Distinct(p.queue) && forall k :: Balanced(p, k)
  }

  lemma {:induction false} Present(q: seq<Item>, kind: nat)
    requires OfKind(q, kind) != []
    ensures FirstOf(q, kind) < |q|
  {
    if FirstOf(q, kind) == |q| {
      NoneOfKind(q, kind);
    }
  }

  lemma Appended(q: seq<Item>, m: nat, k: nat, kind: nat)
    ensures OfKind(q + [Item(m, k)], kind) == OfKind(q, kind) + if kind == k then [m] else []
  {
    OfKindJoined(q, [Item(m, k)], kind);
    assert [Item(m, k)][1..] == [];
  }

  /** A worker that passed the check for quitting always finds a file of its type. */
  lemma NeverEmpty(p: Pool, k: nat)
    requires Inv(p) && p.passed(k) > 0
    ensures FirstOf(p.queue, k) < |p.queue|
  {
    assert Balanced(p, k);
    Present(p.queue, k);
  }

  lemma TakeBalanced(p: Pool, k: nat, kind: nat)
    requires Inv(p) && p.passed(k) > 0
    ensures Balanced(Next(p, Take(k)), kind)
  {
    assert Balanced(p, kind);
    NeverEmpty(p, k);
    FirstInFirstOut(p.queue, k);
    var i := FirstOf(p.queue, k);
    if kind == k {
      var rest := OfKind(Without(p.queue, i), k);
      assert p.served(k) + ([p.queue[i].mfile] + rest) == p.served(k) + [p.queue[i].mfile] + rest;
    }
  }

  lemma EnqueueBalanced(p: Pool, m: nat, k: nat, kind: nat)
    requires Inv(p)
    ensures Balanced(Next(p, Enqueue(m, k)), kind)
  {
    assert Balanced(p, kind);
    Appended(p.queue, m, k, kind);
    assert p.served(kind) + (OfKind(p.queue, kind) + [m]) == p.served(kind) + OfKind(p.queue, kind) + [m];
  }

  lemma StepBalanced(p: Pool, a: Action, kind: nat)
    requires Inv(p)
    ensures Balanced(Next(p, a), kind)
  {
    assert Balanced(p, kind);
    if a.Enqueue? {
      EnqueueBalanced(p, a.mfile, a.kind, kind);
    } else if a.Take? && p.passed(a.kind) > 0 {
      TakeBalanced(p, a.kind, kind);
    }
  }

  lemma StepKept(p: Pool, a: Action)
    requires Inv(p)
    ensures Inv(Next(p, a))
  {
    forall kind
      ensures Balanced(Next(p, a), kind)
    {
      StepBalanced(p, a, kind);
    }
    if a.Take? && p.passed(a.kind) > 0 {
      NeverEmpty(p, a.kind);
    }
  }

  /** In every interleaving of queueing threads and workers: no worker ever finds nothing to do, each
      file is queued at most once, and each type is served in the order in which it was asked for. */
  lemma {:induction false} EveryRun(s: seq<Action>)
    ensures Inv(Run(s))
    ensures forall k :: Run(s).served(k) <= Run(s).asked(k)
  {
    if s != [] {
      EveryRun(s[..|s| - 1]);
      StepKept(Run(s[..|s| - 1]), s[|s| - 1]);
    }
    forall k
      ensures Run(s).served(k) <= Run(s).asked(k)
    {
      assert Balanced(Run(s), k);
    }
  }

  // ---------------------------------------------------------------- nothing is forgotten

  /** A file asked for is in the queue afterwards; unless it was there already, it is the last one, of the
      type asked for, and its semaphore is still to be posted. */
  lemma QueuedOnce(p: Pool, m: nat, kind: nat)
    ensures
      var q := Next(p, Enqueue(m, kind));
      && (exists i :: 0 <= i < |q.queue| && q.queue[i].mfile == m)
      && if exists i :: 0 <= i < |p.queue| && p.queue[i].mfile == m
         then q == p
         else q.queue == p.queue + [Item(m, kind)] && q.asked(kind) == p.asked(kind) + [m] && q.unposted(kind) == p.unposted(kind) + 1
  {
    var q := Next(p, Enqueue(m, kind));
    if !Holds(p.queue, m) {
      assert q.queue[|p.queue|].mfile == m;
    }
  }

  /** The steps still to be taken for the files of a type that were asked for. */
  ghost function Work(p: Pool, kind: nat): nat {
    4 * p.unposted(kind) + 3 * p.sem(kind) + 2 * p.woken(kind) + p.passed(kind)
  }

  /** A step on the way of a file of this type. */
  ghost predicate Serves(a: Action, kind: nat) {
    (a.Post? || a.Wake? || a.Pass? || a.Take?) && a.kind == kind
  }

  ghost function Continue(p: Pool, s: seq<Action>): Pool {
    if s == [] then p else Next(Continue(p, s[..|s| - 1]), s[|s| - 1])
  }

  /** Steps on the way of files of this type, each of which could be taken when it was. */
  ghost predicate Serving(p: Pool, s: seq<Action>, kind: nat) {
    forall k :: 0 <= k < |s| ==> Serves(s[k], kind) && Enabled(Continue(p, s[..k]), s[k])
  }

  /** Each such step leaves one less to be taken, and as long as one is left, one can be taken. */
  lemma WorkLess(p: Pool, a: Action, kind: nat)
    requires Inv(p) && !p.quitting
    ensures Serves(a, kind) && Enabled(p, a) ==>
              Work(Next(p, a), kind) == Work(p, kind) - 1 && !Next(p, a).quitting && Next(p, a).asked == p.asked
    ensures Work(p, kind) > 0 ==>
              exists b :: b in {Post(kind), Wake(kind), Pass(kind), Take(kind)} && Serves(b, kind) && Enabled(p, b)
  {
    if a.Take? && p.passed(a.kind) > 0 {
      NeverEmpty(p, a.kind);
    }
    var steps := {Post(kind), Wake(kind), Pass(kind), Take(kind)};
    if Work(p, kind) > 0 {
      var b := if p.unposted(kind) > 0 then Post(kind) else if p.sem(kind) > 0 then Wake(kind)
               else if p.woken(kind) > 0 then Pass(kind) else Take(kind);
      assert b in steps && Serves(b, kind) && Enabled(p, b);
    }
  }

  lemma {:induction false} WorkDone(p: Pool, s: seq<Action>, kind: nat)
    requires Inv(p) && !p.quitting && Serving(p, s, kind)
    ensures Inv(Continue(p, s)) && !Continue(p, s).quitting && Continue(p, s).asked == p.asked
    ensures Work(Continue(p, s), kind) == Work(p, kind) - |s|
  {
    hide Next, Inv, Enabled, Work, Serves;
    if s != [] {
      var t, n := s[..|s| - 1], |s| - 1;
      assert forall k :: 0 <= k < n ==> t[..k] == s[..k] && t[k] == s[k];
      WorkDone(p, t, kind);
      assert Serves(s[n], kind) && Enabled(Continue(p, s[..n]), s[n]);
      StepKept(Continue(p, t), s[n]);
      WorkLess(Continue(p, t), s[n], kind);
    }
  }

  /** Whatever was asked for is served, until the file system quits: from any state of the pool, and in
      any order the threads take them, there are exactly `Work` steps to take for the files of a type;
      before the last one another one can be taken, and after it all that was asked for has been handed
      out, in the order of asking. */
  lemma ServedInTheEnd(p: Pool, s: seq<Action>, kind: nat)
    requires Inv(p) && !p.quitting && Serving(p, s, kind)
    ensures |s| <= Work(p, kind)
    ensures |s| < Work(p, kind) ==>
              exists a :: a in {Post(kind), Wake(kind), Pass(kind), Take(kind)} && Enabled(Continue(p, s), a)
    ensures |s| == Work(p, kind) <==> Continue(p, s).served(kind) == p.asked(kind)
  {
    hide Next, Enabled;
    WorkDone(p, s, kind);
    var q := Continue(p, s);
    WorkLess(q, Quit, kind);
    assert Balanced(q, kind);
  }

  // ---------------------------------------------------------------- what is counted, and the quit

  ghost function Once(p: Pool, a: Action, b: Action): nat {
    if a == b && Enabled(p, b) then 1 else 0
  }

  /** How often a step of a run was taken. */
  ghost function Times(s: seq<Action>, a: Action): nat {
    if s == [] then 0 else Times(s[..|s| - 1], a) + Once(Run(s[..|s| - 1]), s[|s| - 1], a)
  }

  lemma StepMoves(p: Pool, a: Action, k: nat)
    requires Inv(p)
    ensures
      var q := Next(p, a);
      && |q.asked(k)| - q.unposted(k) == |p.asked(k)| - p.unposted(k) + Once(p, a, Post(k))
      && q.sem(k) == p.sem(k) + Once(p, a, Post(k)) + Once(p, a, Stop(k)) - Once(p, a, Wake(k))
      && q.woken(k) == p.woken(k) + Once(p, a, Wake(k)) - Once(p, a, Pass(k)) - Once(p, a, Exit(k))
      && |q.served(k)| + q.passed(k) == |p.served(k)| + p.passed(k) + Once(p, a, Pass(k))
      && (q.quitting <==> p.quitting || a.Quit?)
  {
    if a.Take? && p.passed(a.kind) > 0 { NeverEmpty(p, a.kind); }
  }

  /** In every run each file asked for is posted or to be posted; each post, and each one to stop a worker, woke
      one up or is still to be waited for; each worker that woke up passed the check, or left, or is about to;
      and each that passed was served a file or is about to be. */
  lemma {:induction false} Conserved(s: seq<Action>, k: nat)
    ensures
      var p := Run(s);
      && |p.asked(k)| == Times(s, Post(k)) + p.unposted(k)
      && Times(s, Post(k)) + Times(s, Stop(k)) == Times(s, Wake(k)) + p.sem(k)
      && Times(s, Wake(k)) == Times(s, Pass(k)) + Times(s, Exit(k)) + p.woken(k)
      && Times(s, Pass(k)) == |p.served(k)| + p.passed(k)
    ensures Run(s).quitting <==> exists i :: 0 <= i < |s| && s[i].Quit?
  {
    hide Next, Enabled, Inv, Once;
    if s == [] {
      AtFirst(k);
    } else {
      var t, n := s[..|s| - 1], |s| - 1;
      Conserved(t, k);
      EveryRun(t);
      StepMoves(Run(t), s[n], k);
      if i :| 0 <= i < |t| && t[i].Quit? { assert s[i].Quit?; }
    }
  }

  lemma AtFirst(k: nat)
    ensures var p := Idle(); !p.quitting && p.asked(k) == p.served(k) == [] && p.sem(k) == p.woken(k) == p.passed(k) == p.unposted(k) == 0
  {
  }

  /** Once the file system quits, one more post lets exactly one more worker out, and nothing else changes. */
  lemma StopLetsOneOut(p: Pool, k: nat)
    requires p.quitting
    ensures
      var p1 := Next(p, Stop(k)); var p2 := Next(p1, Wake(k)); var p3 := Next(p2, Exit(k));
      && Enabled(p, Stop(k)) && Enabled(p1, Wake(k)) && Enabled(p2, Exit(k))
      && p3.quitting && p3.queue == p.queue && p3.served == p.served && p3.passed == p.passed
      && forall i :: p3.sem(i) == p.sem(i) && p3.woken(i) == p.woken(i)
  {
  }

  /** No file is handed out any more then but to a worker that had passed the check. */
  lemma {:induction false} AfterQuit(p: Pool, s: seq<Action>, k: nat)
    requires Inv(p) && p.quitting
    ensures Inv(Continue(p, s)) && Continue(p, s).quitting
    ensures |Continue(p, s).served(k)| + Continue(p, s).passed(k) == |p.served(k)| + p.passed(k)
  {
    if s != [] {
      var t, a := s[..|s| - 1], s[|s| - 1];
      AfterQuit(p, t, k);
      var q := Continue(p, t);
      StepKept(q, a);
      if a.Take? && q.passed(a.kind) > 0 { NeverEmpty(q, a.kind); }
    }
  }
}
