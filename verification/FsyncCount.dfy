/** Counting the write-backs that an apply of the journal has asked for. */
module FsyncCount {

  datatype Phase = NoApply | Updating | Syncing

  /** How asking for one write-back ends. */
  datatype Asked = Accepted | AlreadyQueued | Refused

  ghost function Count(s: seq<Asked>, a: Asked): (n: nat)
    ensures n <= |s|
  {
    if s == [] then 0 else Count(s[..|s| - 1], a) + if s[|s| - 1] == a then 1 else 0
  }

  ghost function Places(s: seq<Asked>, a: Asked): set<nat> {
    set k | 0 <= k < |s| && s[k] == a
  }

  lemma PlacesGrow(s: seq<Asked>, a: Asked)
    requires s != []
    ensures var n := |s| - 1;
            n !in Places(s[..n], a) && Places(s, a) == if s[n] == a then Places(s[..n], a) + {n} else Places(s[..n], a)
  {
  }

  /** As many as there are places with that answer. */
  lemma {:induction false} CountMeans(s: seq<Asked>, a: Asked)
    ensures Count(s, a) == |Places(s, a)|
  {
    hide Places;
    if s == [] {
      NoPlace(a);
    } else {
      CountMeans(s[..|s| - 1], a);
      PlacesGrow(s, a);
    }
  }

  lemma NoPlace(a: Asked)
    ensures Places([], a) == {}
  {
  }

  // ---------------------------------------------------------------- the steps

  /** A local operation is logged; an apply of a journal whose write-backs are answered as in `asked`;
      a report of a worker; or a worker gives up without one. */
  datatype Action = Log | Start(asked: seq<Asked>) | Report(success: bool) | Vanish

  /** `journal` tells that the journal file is there; `pending` counts the accepted write-backs not
      reported yet, `lost` those whose worker gave up; `applies` and `removals` the applies that found a
      journal and the removals of the .fsync file. */
  datatype State = State(phase: Phase, journal: bool, total: nat, done: nat, pending: nat, lost: nat, applies: nat, removals: nat)

  const START: State := State(NoApply, false, 0, 0, 0, 0, 0, 0)

  /** Counters that are not zero when an apply begins make it abort. */
  predicate Aborts(s: State, a: Action) {
    a.Start? && s.phase.NoApply? && s.total != 0
  }

  /** An apply that begins now gets to apply something. */
  predicate Works(s: State) {
    s.phase.NoApply? && s.total == 0 && s.journal
  }

  /** An apply takes the journal file away; one that finds none gives up where it is. */
  ghost function Next(s: State, a: Action): State {
    match a
    case Log => s.(journal := true)
    case Start(asked) =>
      if !s.phase.NoApply? || Aborts(s, a) then s
      else if !s.journal then s.(phase := Updating)
      else
        var accepted := Count(asked, Accepted);
        State(if accepted > 0 then Syncing else NoApply, false, |asked|, |asked| - accepted, accepted, 0, s.applies + 1,
              s.removals + if accepted == 0 then 1 else 0)
    case Report(_) =>
      if s.pending == 0 then s
      else if s.done + 1 == s.total then State(NoApply, s.journal, 0, 0, 0, 0, s.applies, s.removals + 1)
      else s.(done := s.done + 1, pending := s.pending - 1)
    case Vanish =>
      if s.pending == 0 then s else s.(pending := s.pending - 1, lost := s.lost + 1)
  }

  // ---------------------------------------------------------------- the counters

  class Counters {
    var phase: Phase
    var total: nat
    var ok: nat
    var errors: nat
    var journalFile: bool
    var fsyncFile: bool
    ghost var pending: nat
    ghost var lost: nat
    ghost var applies: nat
    ghost var removals: nat

    ghost predicate Valid()
      reads this
    {
      (fsyncFile <==> phase == Syncing) && Inv(Abs())
    }

    ghost function Abs(): State
      reads this
    {
      State(phase, journalFile, total, ok + errors, pending, lost, applies, removals)
    }

    constructor ()
      ensures Valid() && Abs() == START
    {
      phase, total, ok, errors, journalFile, fsyncFile := NoApply, 0, 0, 0, false, false;
      pending, lost, applies, removals := 0, 0, 0, 0;
    }

    /** A local operation is logged, which makes a journal file if there is none. */
    method Append()
      requires Valid()
      modifies this`journalFile
      ensures Valid() && journalFile && Abs() == Next(old(Abs()), Log)
    {
      journalFile := true;
    }

    /** Asks for the write-backs, one after the other. */
    method Ask(asked: seq<Asked>)
      requires total == ok == errors == 0 && pending == 0
      modifies this`total, this`ok, this`errors, this`pending
      ensures total == |asked| && pending == Count(asked, Accepted)
      ensures ok == Count(asked, AlreadyQueued) && errors == Count(asked, Refused) && ok + errors + pending == total
    {
      assert asked[..0] == [];
      for k := 0 to |asked|
        invariant total == k && pending == Count(asked[..k], Accepted)
        invariant ok == Count(asked[..k], AlreadyQueued) && errors == Count(asked[..k], Refused)
        invariant ok + errors + pending == total
      {
        assert asked[..k + 1][..k] == asked[..k];
        total := total + 1;
        if asked[k] == AlreadyQueued {
          ok := ok + 1;
        } else if asked[k] == Refused {
          errors := errors + 1;
        } else {
          pending := pending + 1;
        }
      }
      assert asked[..|asked|] == asked;
    }

    /** Applies a journal. Workers cannot report before the end, as they need the journal's lock. */
    method Apply(asked: seq<Asked>) returns (bug: bool)
      requires Valid()
      modifies this
      ensures bug <==> old(phase == NoApply && total != 0)
      ensures Valid() && Abs() == Next(old(Abs()), Start(asked))
      ensures old(phase != NoApply || total != 0) ==>
                && phase == old(phase) && total == old(total) && ok == old(ok) && errors == old(errors)
                && journalFile == old(journalFile) && pending == old(pending) && lost == old(lost) && applies == old(applies)
      ensures old(phase == NoApply && total == 0 && !journalFile) ==>
                phase == Updating && total == ok == errors == 0 && !journalFile && applies == old(applies)
      ensures old(phase == NoApply && total == 0 && journalFile) ==>
                && phase == (if Count(asked, Accepted) == 0 then NoApply else Syncing) && !journalFile
                && total == |asked| && ok == Count(asked, AlreadyQueued) && errors == Count(asked, Refused)
                && pending == Count(asked, Accepted) && lost == 0 && applies == old(applies) + 1
    {
      hide Count;
      if phase != NoApply { return false; }
      if total != 0 { return true; }
      total, ok, errors := 0, 0, 0;
      phase := Updating;
      if !journalFile { return false; }
      pending, lost, applies := 0, 0, applies + 1;
      phase := Syncing;
      journalFile, fsyncFile := false, true;
      Ask(asked);
      if ok + errors == total {
        fsyncFile := false;
        removals := removals + 1;
        phase := NoApply;
      }
      bug := false;
    }

    /** A worker reports the end of a write-back. */
    method NotifySyncEnd(success: bool)
      requires Valid() && pending > 0
      modifies this
      ensures Valid() && Abs() == Next(old(Abs()), Report(success))
      ensures journalFile == old(journalFile) && applies == old(applies)
      ensures if old(ok + errors) + 1 < old(total)
              then phase == Syncing && total == old(total) && removals == old(removals) && lost == old(lost)
                   && ok == old(ok) + (if success then 1 else 0) && errors == old(errors) + (if success then 0 else 1)
                   && pending == old(pending) - 1
              else phase == NoApply && total == ok == errors == 0 && removals == old(removals) + 1 && pending == lost == 0
    {
      if success {
        ok := ok + 1;
      } else {
        errors := errors + 1;
      }
      pending := pending - 1;
      if ok + errors == total {
        fsyncFile := false;
        removals := removals + 1;
        total, ok, errors := 0, 0, 0;
        phase := NoApply;
      }
    }
  }

  // ---------------------------------------------------------------- whole runs

  ghost function Continue(s: State, more: seq<Action>): State {
    if more == [] then s else Next(Continue(s, more[..|more| - 1]), more[|more| - 1])
  }

  ghost predicate Vanishes(s: seq<Action>) {
    exists k :: 0 <= k < |s| && s[k].Vanish?
  }

  /** What was asked for is done, pending or lost; every apply but one still going on had its .fsync
      file removed once; one that found no journal has counted nothing. */
  ghost predicate Inv(s: State) {
    && s.total == s.done + s.pending + s.lost && (s.phase.Syncing? <==> s.pending + s.lost > 0)
    && s.removals + (if s.phase.Syncing? then 1 else 0) == s.applies
    && (s.phase.Updating? ==> s.total == 0)
  }

  lemma StepKept(s: State, a: Action)
    requires Inv(s)
    ensures Inv(Next(s, a))
    ensures !a.Vanish? && s.lost == 0 ==> Next(s, a).lost == 0 && (Next(s, a).phase.Syncing? <==> Next(s, a).pending > 0)
  {
  }

  /** An apply begins only when nothing of the last one is left and there is a journal; a .fsync file
      is removed only when no accepted write-back is unreported. */
  ghost predicate InTurn(s: State, a: Action) {
    && (Next(s, a).applies > s.applies ==> a.Start? && Works(s) && s.pending + s.lost == 0 && s.removals == s.applies)
    && (Next(s, a).removals > s.removals ==> Next(s, a).pending + Next(s, a).lost == 0)
    && s.applies <= Next(s, a).applies <= s.applies + 1 && s.removals <= Next(s, a).removals <= s.removals + 1
  }

  lemma StepCounts(s: State, a: Action)
    requires Inv(s)
    ensures InTurn(s, a)
  {
  }

  /** In every interleaving of logging, applies and reports each apply that found a journal has its
      .fsync file removed once. If no worker gives up silently, that is so when all have reported. */
  lemma {:induction false} EveryRun(s: seq<Action>)
    ensures Inv(Continue(START, s))
    ensures !Vanishes(s) ==>
              Continue(START, s).lost == 0 && (Continue(START, s).phase.Syncing? <==> Continue(START, s).pending > 0)
  {
    if s == [] {
      Beginning();
    } else {
      hide Next, Inv;
      var t := s[..|s| - 1];
      EveryRun(t);
      StepKept(Continue(START, t), s[|s| - 1]);
      if k :| 0 <= k < |t| && t[k].Vanish? { assert s[k].Vanish?; }
      assert s[|s| - 1].Vanish? ==> Vanishes(s);
    }
  }

  /** At no step of such a run an apply begins, or a .fsync file is removed, out of turn. */
  lemma EveryStep(s: seq<Action>, k: nat)
    requires k < |s|
    ensures InTurn(Continue(START, s[..k]), s[k])
  {
    EveryRun(s[..k]);
    StepCounts(Continue(START, s[..k]), s[k]);
  }

  lemma Beginning()
    ensures Inv(START) && START.lost == 0 && !START.phase.Syncing? && START.pending == 0
  {
  }

  // ---------------------------------------------------------------- whether another apply works

  ghost predicate NoStart(more: seq<Action>) {
    forall k :: 0 <= k < |more| ==> !more[k].Start?
  }

  ghost predicate Logs(more: seq<Action>) {
    exists k :: 0 <= k < |more| && more[k].Log?
  }

  /** Of `n` write-backs, those still unreported after `more`, and those lost. */
  ghost function Left(n: nat, more: seq<Action>): (r: (nat, nat))
    ensures r.0 + r.1 <= n
  {
    if more == [] then (n, 0) else
      var (p, l) := Left(n, more[..|more| - 1]);
      if p == 0 then (p, l)
      else if more[|more| - 1].Report? then (p - 1, l)
      else if more[|more| - 1].Vanish? then (p - 1, l + 1)
      else (p, l)
  }

  /** After an apply that worked, the next one works exactly if something was logged since, and the
      first one asked for nothing, or something was accepted and all of that has been reported. */
  lemma NextApply(s: State, asked: seq<Asked>, more: seq<Action>)
    requires Inv(s) && Works(s) && NoStart(more)
    ensures Works(Continue(Next(s, Start(asked)), more)) <==>
            Logs(more) && (asked == [] || (Count(asked, Accepted) > 0 && Left(Count(asked, Accepted), more) == (0, 0)))
  {
    StepKept(s, Start(asked));
    Afterwards(Next(s, Start(asked)), more);
  }

  /** What becomes of an apply that has asked for its write-backs, with no other one begun. */
  lemma {:induction false} Afterwards(s: State, more: seq<Action>)
    requires Inv(s) && NoStart(more) && !s.phase.Updating? && s.lost == 0
    ensures
      var t := Continue(s, more); var (p, l) := Left(s.pending, more);
      && Inv(t) && t.pending == p && t.lost == l && !t.phase.Updating?
      && (t.journal <==> s.journal || Logs(more))
      && (if p + l == 0 && s.pending > 0 then t.total == 0 else t.total == s.total)
  {
    hide Next, Inv;
    if more != [] {
      var rest, last := more[..|more| - 1], more[|more| - 1];
      assert forall k :: 0 <= k < |rest| ==> rest[k] == more[k];
      Afterwards(s, rest);
      StepLeft(Continue(s, rest), last);
      LogsMore(rest, last);
      assert more == rest + [last];
    }
  }

  lemma StepLeft(t: State, a: Action)
    requires Inv(t) && !a.Start? && !t.phase.Updating?
    ensures
      var t' := Next(t, a);
      && Inv(t') && !t'.phase.Updating? && (t'.journal <==> t.journal || a.Log?)
      && t'.pending == t.pending - (if t.pending > 0 && (a.Report? || a.Vanish?) then 1 else 0)
      && t'.lost == t.lost + (if t.pending > 0 && a.Vanish? then 1 else 0)
      && t'.total == if t.pending > 0 && t'.pending + t'.lost == 0 then 0 else t.total
  {
  }

  lemma LogsMore(more: seq<Action>, a: Action)
    ensures Logs(more + [a]) <==> Logs(more) || a.Log?
  {
    var t := more + [a];
    if k :| 0 <= k < |more| && more[k].Log? { assert t[k].Log?; }
    assert t[|more|] == a;
  }

  /** An apply that finds no journal is never over, and no other one ever begins. */
  lemma {:induction false} NoJournal(s: State, asked: seq<Asked>, more: seq<Action>)
    requires Inv(s) && s.phase.NoApply? && s.total == 0 && !s.journal
    ensures
      var t := Continue(Next(s, Start(asked)), more);
      t.phase.Updating? && t.applies == s.applies && t.total == t.pending == 0 && !Works(t)
  {
    if more != [] {
      NoJournal(s, asked, more[..|more| - 1]);
    }
  }

  /** Two applies in a row, and the first apply on a new mount: whatever follows, nothing is applied any
      more. */
  lemma TwoInARow(asked: seq<Asked>, again: seq<Asked>, more: seq<Action>)
    requires asked == []
    ensures
      var first := Continue(START, [Log, Start(asked)]);
      && first.applies == 1 && Inv(first)
      && Continue(Next(first, Start(again)), more).applies == 1
      && Continue(Next(START, Start(asked)), more).applies == 0
  {
    var s := [Log, Start(asked)];
    assert s[..1] == [Log] && [Log][..0] == [];
    var logged := Next(START, Log);
    assert Continue(START, [Log]) == logged;
    var first := Next(logged, Start(asked));
    assert Continue(START, s) == first;
    NoJournal(first, again, more);
    NoJournal(START, asked, more);
  }

  /** After an apply that is over at once the next one aborts exactly if the first asked for any
      write-back: the branch that finds nothing accepted leaves the counters as they are. */
  lemma AbortExact(s: State, asked: seq<Asked>, next: seq<Asked>)
    requires Inv(s) && Works(s) && Count(asked, Accepted) == 0
    ensures Aborts(Next(s, Start(asked)), Start(next)) <==> asked != []
  {
  }

  /** After the last report the next apply never aborts. */
  lemma ReportedThrough(s: State, success: bool, next: seq<Asked>)
    requires Inv(s) && s.pending > 0 && !Next(s, Report(success)).phase.Syncing?
    ensures !Aborts(Next(s, Report(success)), Start(next))
  {
  }

  /** A worker that gives up silently keeps the apply from ever ending. */
  lemma {:induction false} NeverEnds(s: State, more: seq<Action>)
    requires Inv(s) && s.lost > 0
    ensures Continue(s, more).phase.Syncing? && Continue(s, more).removals == s.removals
    ensures Inv(Continue(s, more)) && Continue(s, more).lost >= s.lost
  {
    if more != [] {
      NeverEnds(s, more[..|more| - 1]);
      StepKept(Continue(s, more[..|more| - 1]), more[|more| - 1]);
    }
  }
}
