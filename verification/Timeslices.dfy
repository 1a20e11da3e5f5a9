/** Ageing of open files: a ring of lists, one per tick, with a list for those that fell out of the
    ring and one for those that were freed. Files are numbered; 0 stands for "no file". */
module Timeslices {
  import opened Sequences

  const SLICES: nat := 1024
  const GARBAGE: nat := 1024
  const FREED: nat := 1025

  /** The ageing fields of a file. */
  datatype Age = Age(timeslice: int, previous: nat, next: nat)

  const LOOSE: Age := Age(-1, 0, 0)

  type Ages = map<nat, Age>

  /** The files of a list, doubly linked from its head. */
  ghost predicate Chain(m: Ages, head: nat, l: seq<nat>) {
    && head == (if l == [] then 0 else l[0]) && NoDup(l)
    && (forall i :: 0 <= i < |l| ==> l[i] in m && l[i] != 0)
    && (forall i {:trigger m[l[i]].next} :: 0 <= i < |l| ==> m[l[i]].next == if i + 1 < |l| then l[i + 1] else 0)
    && (forall i {:trigger m[l[i]].previous} :: 0 <= i < |l| ==> m[l[i]].previous == if i > 0 then l[i - 1] else 0)
  }

  /** The first file of a list knows its slice; outside the garbage list every file does. */
  ghost predicate Marked(m: Ages, s: int, l: seq<nat>) {
    forall i :: 0 <= i < |l| && (i == 0 || s != GARBAGE) ==> l[i] in m && m[l[i]].timeslice == s
  }

  function Ago(current: nat, s: nat): (age: nat)
    requires current < SLICES && s < SLICES
    ensures age < SLICES
  {
    if s <= current then current - s else current + SLICES - s
  }

  /** Each file is in one list, `where` says which. */
  ghost predicate Filed(m: Ages, lists: seq<seq<nat>>, where: map<nat, nat>) {
    && where.Keys == m.Keys && 0 !in m
    && (forall f :: f in m ==> where[f] < |lists| && f in lists[where[f]])
    && (forall s, f :: 0 <= s < |lists| && f in lists[s] ==> f in m && where[f] == s)
  }

  ghost predicate Linked(m: Ages, slots: seq<nat>, lists: seq<seq<nat>>) {
    && |slots| == |lists| == SLICES + 2
    && (forall s :: 0 <= s < |lists| ==> Chain(m, slots[s], lists[s]) && Marked(m, s, lists[s]))
  }

  /** The slice of a file tells when it was last put into the ring. */
  ghost predicate Aged(tick: nat, lists: seq<seq<nat>>, touch: map<nat, nat>) {
    && |lists| == SLICES + 2
    && (forall s, f :: 0 <= s < SLICES && f in lists[s] ==>
          f in touch && touch[f] <= tick && tick - touch[f] == Ago(tick % SLICES, s))
    && (forall f :: f in lists[GARBAGE] ==> f in touch && touch[f] + SLICES <= tick)
  }

  ghost function Without(l: seq<nat>, i: nat): seq<nat>
    requires i < |l|
  {
    l[..i] + l[i + 1..]
  }

  lemma WithoutElements(l: seq<nat>, i: nat)
    requires i < |l| && NoDup(l)
    ensures forall g :: g in Without(l, i) <==> g in l && g != l[i]
    ensures NoDup(Without(l, i))
  {
    forall g | g in l && g != l[i]
      ensures g in Without(l, i)
    {
      var k :| 0 <= k < |l| && l[k] == g;
      assert Without(l, i)[if k < i then k else k - 1] == g;
    }
  }

  lemma ChainKept(m: Ages, m': Ages, s: int, head: nat, l: seq<nat>)
    requires Chain(m, head, l) && Marked(m, s, l)
    requires forall f :: f in l && f in m ==> f in m' && m'[f] == m[f]
    ensures Chain(m', head, l) && Marked(m', s, l)
  {
    assert forall i :: 0 <= i < |l| ==> l[i] in l;
  }

  // ---------------------------------------------------------------- putting a file into a list

  function Pushed(m: Ages, f: nat, s: nat, head: nat): Ages {
    var m1 := if head in m then m[head := m[head].(previous := f)] else m;
    m1[f := Age(s, 0, head)]
  }

  lemma ChainPushed(m: Ages, f: nat, s: nat, head: nat, l: seq<nat>)
    requires Chain(m, head, l) && Marked(m, s, l) && f !in l && f != 0 && 0 !in m
    ensures Chain(Pushed(m, f, s, head), f, [f] + l) && Marked(Pushed(m, f, s, head), s, [f] + l)
  {
    var m', l' := Pushed(m, f, s, head), [f] + l;
    assert forall i :: 0 < i < |l'| ==> l'[i] == l[i - 1];
    assert forall i :: 1 < i < |l'| ==> m'[l'[i]] == m[l'[i]];
    assert l != [] ==> m'[l'[1]] == m[head].(previous := f);
  }

  lemma LinkedMore(m: Ages, slots: seq<nat>, lists: seq<seq<nat>>, where: map<nat, nat>, f: nat, s: nat)
    requires Linked(m, slots, lists) && Filed(m, lists, where) && s < |lists| && f != 0 && f !in m
    ensures Linked(Pushed(m, f, s, slots[s]), slots[s := f], lists[s := [f] + lists[s]])
  {
    hide Chain, Marked;
    var m', slots', lists' := Pushed(m, f, s, slots[s]), slots[s := f], lists[s := [f] + lists[s]];
    HeadListed(m, slots[s], lists[s], s);
    forall t | 0 <= t < |lists|
      ensures Chain(m', slots'[t], lists'[t]) && Marked(m', t, lists'[t])
    {
      if t == s {
        ChainPushed(m, f, s, slots[s], lists[s]);
      } else {
        ChainKept(m, m', t, slots[t], lists[t]);
      }
    }
  }

  lemma HeadListed(m: Ages, head: nat, l: seq<nat>, s: int)
    requires Chain(m, head, l) && 0 !in m
    ensures head in m ==> head in l
    ensures head == 0 <==> l == []
    ensures NoDup(l)
  {
  }

  lemma FiledMore(m: Ages, slots: seq<nat>, lists: seq<seq<nat>>, where: map<nat, nat>, f: nat, s: nat)
    requires Filed(m, lists, where) && s < |lists| && |slots| == |lists| && f != 0 && f !in m
    ensures Filed(Pushed(m, f, s, slots[s]), lists[s := [f] + lists[s]], where[f := s])
  {
    var lists' := lists[s := [f] + lists[s]];
    assert f in lists'[s];
    forall g | g in m
      ensures g in lists'[where[g]]
    {
    }
  }

  // ---------------------------------------------------------------- taking a file out of its list

  /** What bridging the list over a file writes. */
  function Bridged(m: Ages, f: nat): Ages
    requires f in m
  {
    var a := m[f];
    var m1 := if a.previous in m then m[a.previous := m[a.previous].(next := a.next)] else m;
    if a.next in m1 then m1[a.next := m1[a.next].(timeslice := a.timeslice, previous := a.previous)] else m1
  }

  lemma ChainBridged(m: Ages, s: nat, head: nat, l: seq<nat>, i: nat)
    requires Chain(m, head, l) && Marked(m, s, l) && i < |l| && 0 !in m
    ensures Chain(Bridged(m, l[i]) - {l[i]}, if i == 0 then m[l[i]].next else head, Without(l, i))
    ensures Marked(Bridged(m, l[i]) - {l[i]}, s, Without(l, i))
    ensures m[l[i]].previous == 0 <==> i == 0
    ensures i == 0 ==> m[l[i]].timeslice == s
  {
    var f, l' := l[i], Without(l, i);
    var m' := Bridged(m, f) - {f};
    WithoutElements(l, i);
    WithoutHead(l, i);
    assert m[f].previous == if i > 0 then l[i - 1] else 0;
    assert m[f].next == if i + 1 < |l| then l[i + 1] else 0;
    forall k | 0 <= k < |l'|
      ensures LinksOf(m', s, l', k)
    {
      BridgedLinks(m, s, head, l, i, k);
    }
    hide Bridged, Without, Chain, Marked;
    ChainFrom(m', s, if i == 0 then m[f].next else head, l');
  }

  /** What a chain says about one of its files. */
  ghost predicate LinksOf(m: Ages, s: int, l: seq<nat>, k: nat) {
    && k < |l| && l[k] in m && l[k] != 0
    && m[l[k]].next == (if k + 1 < |l| then l[k + 1] else 0)
    && m[l[k]].previous == (if k > 0 then l[k - 1] else 0)
    && (k == 0 || s != GARBAGE ==> m[l[k]].timeslice == s)
  }

  lemma ChainFrom(m: Ages, s: int, head: nat, l: seq<nat>)
    requires NoDup(l) && head == (if |l| == 0 then 0 else l[0])
    requires forall k :: 0 <= k < |l| ==> LinksOf(m, s, l, k)
    ensures Chain(m, head, l) && Marked(m, s, l)
  {
    forall k | 0 <= k < |l|
      ensures l[k] in m && l[k] != 0 && m[l[k]].next == (if k + 1 < |l| then l[k + 1] else 0)
      ensures m[l[k]].previous == (if k > 0 then l[k - 1] else 0)
      ensures k == 0 || s != GARBAGE ==> m[l[k]].timeslice == s
    {
      assert LinksOf(m, s, l, k);
    }
  }

  lemma WithoutHead(l: seq<nat>, i: nat)
    requires i < |l|
    ensures |Without(l, i)| == |l| - 1
    ensures |l| > 1 ==> Without(l, i)[0] == if i == 0 then l[1] else l[0]
  {
  }

  lemma BridgedLinks(m: Ages, s: nat, head: nat, l: seq<nat>, i: nat, k: nat)
    requires Chain(m, head, l) && Marked(m, s, l) && i < |l| && 0 !in m && k < |Without(l, i)|
    ensures LinksOf(Bridged(m, l[i]) - {l[i]}, s, Without(l, i), k)
  {
    BridgedAt(m, l, i, k);
    hide Bridged;
    var j := if k < i then k else k + 1;
    assert Without(l, i)[k] == l[j];
    ListStep(m, head, l, j);
    ListStep(m, head, l, i);
    assert m[l[j]].previous == if j > 0 then l[j - 1] else 0;
    assert m[l[i]].previous == if i > 0 then l[i - 1] else 0;
  }

  /** What a file that stays looks like after the bridging. */
  lemma BridgedAt(m: Ages, l: seq<nat>, i: nat, k: nat)
    requires i < |l| && Chain(m, l[0], l) && 0 !in m && k < |Without(l, i)|
    ensures var f := l[i]; var g := Without(l, i)[k];
      && g in l && g in m && g != f
      && Bridged(m, f)[g] ==
           if k + 1 == i then m[g].(next := m[f].next)
           else if k == i then m[g].(timeslice := m[f].timeslice, previous := m[f].previous)
           else m[g]
  {
    var f, g := l[i], Without(l, i)[k];
    assert g == l[if k < i then k else k + 1];
    assert i > 0 ==> m[f].previous == l[i - 1];
    assert i + 1 < |l| ==> m[f].next == l[i + 1];
  }

  lemma LinkedLess(m: Ages, slots: seq<nat>, lists: seq<seq<nat>>, where: map<nat, nat>, s: nat, i: nat)
    requires Linked(m, slots, lists) && Filed(m, lists, where) && s < |lists| && i < |lists[s]|
    ensures var f := lists[s][i];
      && f in m && (m[f].previous == 0 <==> i == 0) && (i == 0 ==> m[f].timeslice == s)
      && Linked(Bridged(m, f) - {f}, if i == 0 then slots[s := m[f].next] else slots, lists[s := Without(lists[s], i)])
  {
    hide Chain, Marked;
    var f := lists[s][i];
    HeadListed(m, slots[s], lists[s], s);
    assert f in lists[s];
    NeighboursListed(m, slots[s], lists[s], i);
    ChainBridged(m, s, slots[s], lists[s], i);
    var m' := Bridged(m, f) - {f};
    forall t | 0 <= t < |lists| && t != s
      ensures Chain(m', slots[t], lists[t]) && Marked(m', t, lists[t])
    {
      ChainKept(m, m', t, slots[t], lists[t]);
    }
  }

  lemma NeighboursListed(m: Ages, head: nat, l: seq<nat>, i: nat)
    requires Chain(m, head, l) && i < |l| && 0 !in m
    ensures m[l[i]].previous in m ==> m[l[i]].previous in l
    ensures m[l[i]].next in m ==> m[l[i]].next in l
  {
    assert m[l[i]].next == if i + 1 < |l| then l[i + 1] else 0;
    assert m[l[i]].previous == if i > 0 then l[i - 1] else 0;
  }

  lemma FiledLess(m: Ages, lists: seq<seq<nat>>, where: map<nat, nat>, s: nat, i: nat)
    requires Filed(m, lists, where) && s < |lists| && i < |lists[s]| && NoDup(lists[s])
    ensures lists[s][i] in m
    ensures Filed(Bridged(m, lists[s][i]) - {lists[s][i]}, lists[s := Without(lists[s], i)], where - {lists[s][i]})
  {
    WithoutElements(lists[s], i);
    var f := lists[s][i];
    assert f in lists[s] && f in m;
    BridgedKeys(m, f);
    var m', lists', where' := Bridged(m, f) - {f}, lists[s := Without(lists[s], i)], where - {f};
    hide Bridged, Without;
    forall t, g | 0 <= t < |lists'| && g in lists'[t]
      ensures Files(m', where', t, g)
    {
      assert g in lists[t];
    }
    forall g | g in m'
      ensures Holds(lists', where', g)
    {
      assert g in lists[where[g]];
    }
    FiledFrom(m', lists', where');
  }

  lemma AgedLess(tick: nat, lists: seq<seq<nat>>, touch: map<nat, nat>, s: nat, i: nat)
    requires Aged(tick, lists, touch) && s < |lists| && i < |lists[s]| && NoDup(lists[s])
    ensures Aged(tick, lists[s := Without(lists[s], i)], touch)
  {
    WithoutElements(lists[s], i);
  }

  lemma AgedMore(tick: nat, lists: seq<seq<nat>>, touch: map<nat, nat>, s: nat, f: nat)
    requires Aged(tick, lists, touch) && forall t, g :: 0 <= t < |lists| && g in lists[t] ==> g != f
    requires s == FREED || s == tick % SLICES
    ensures Aged(tick, lists[s := [f] + lists[s]], if s == FREED then touch else touch[f := tick])
  {
  }

  // ---------------------------------------------------------------- the next tick

  /** Appends a list to another by the two links between them. */
  lemma ChainJoined(m: Ages, m': Ages, a: seq<nat>, b: seq<nat>)
    requires a != [] && Chain(m, a[0], a) && Chain(m, if b == [] then 0 else b[0], b)
    requires forall f :: f in a ==> f !in b
    requires forall f :: f in a || f in b ==> f in m && f in m'
    requires forall k :: 0 <= k < |a| ==>
      m'[a[k]].previous == m[a[k]].previous && m'[a[k]].next == if k == |a| - 1 && b != [] then b[0] else m[a[k]].next
    requires forall k :: 0 <= k < |b| ==>
      m'[b[k]].next == m[b[k]].next && m'[b[k]].previous == if k == 0 then a[|a| - 1] else m[b[k]].previous
    ensures Chain(m', a[0], a + b)
  {
    var l := a + b;
    NoDupJoined(a, b);
    assert l[0] == a[0];
    forall i | 0 <= i < |l|
      ensures l[i] in m' && l[i] != 0
      ensures m'[l[i]].next == if i + 1 < |l| then l[i + 1] else 0
      ensures m'[l[i]].previous == if i > 0 then l[i - 1] else 0
    {
      JoinedAt(m, m', a, b, i);
    }
  }

  lemma JoinedAt(m: Ages, m': Ages, a: seq<nat>, b: seq<nat>, i: nat)
    requires a != [] && Chain(m, a[0], a) && Chain(m, if b == [] then 0 else b[0], b) && i < |a + b|
    requires forall f :: f in a || f in b ==> f in m && f in m'
    requires forall k :: 0 <= k < |a| ==>
      m'[a[k]].previous == m[a[k]].previous && m'[a[k]].next == if k == |a| - 1 && b != [] then b[0] else m[a[k]].next
    requires forall k :: 0 <= k < |b| ==>
      m'[b[k]].next == m[b[k]].next && m'[b[k]].previous == if k == 0 then a[|a| - 1] else m[b[k]].previous
    ensures
      var l := a + b;
      && l[i] in m' && l[i] != 0
      && m'[l[i]].next == (if i + 1 < |l| then l[i + 1] else 0)
      && m'[l[i]].previous == if i > 0 then l[i - 1] else 0
  {
    var l := a + b;
    if i < |a| {
      assert l[i] == a[i] && a[i] in a && m[a[i]].next == (if i + 1 < |a| then a[i + 1] else 0);
      assert m[a[i]].previous == if i > 0 then a[i - 1] else 0;
    } else {
      var k := i - |a|;
      assert l[i] == b[k] && b[k] in b && m[b[k]].next == (if k + 1 < |b| then b[k + 1] else 0);
      assert m[b[k]].previous == if k > 0 then b[k - 1] else 0;
    }
  }

  /** What putting the list from `head` to `tail` in front of the garbage list writes. */
  function Dumped(m: Ages, head: nat, tail: nat, garbage: nat): Ages {
    if head !in m || tail !in m then m else
    var m1 := if garbage in m then
                var m0 := m[tail := m[tail].(next := garbage)]; m0[garbage := m0[garbage].(previous := tail)]
              else m;
    m1[head := m1[head].(timeslice := GARBAGE)]
  }

  /** The lists after that: `last` is empty, its files are the first of the garbage. */
  ghost function DumpedLists(lists: seq<seq<nat>>, last: nat): seq<seq<nat>> {
    if |lists| != SLICES + 2 || last >= SLICES then lists
    else lists[GARBAGE := lists[last] + lists[GARBAGE]][last := []]
  }

  function DumpedSlots(slots: seq<nat>, last: nat): seq<nat> {
    if |slots| != SLICES + 2 || last >= SLICES then slots else slots[GARBAGE := slots[last]][last := 0]
  }

  lemma ChainDumped(m: Ages, a: seq<nat>, b: seq<nat>)
    requires a != [] && Chain(m, a[0], a) && Chain(m, if b == [] then 0 else b[0], b) && 0 !in m
    requires forall f :: f in a ==> f !in b
    ensures a[0] in m && a[|a| - 1] in m && a[|a| - 1] != 0
    ensures
      var m' := Dumped(m, a[0], a[|a| - 1], if b == [] then 0 else b[0]);
      Chain(m', a[0], a + b) && Marked(m', GARBAGE, a + b)
  {
    var tail, head, garbage := a[|a| - 1], a[0], if b == [] then 0 else b[0];
    var m' := Dumped(m, head, tail, garbage);
    forall k | 0 <= k < |a|
      ensures a[k] in m && a[k] in m' && m'[a[k]].previous == m[a[k]].previous
      ensures m'[a[k]].next == if k == |a| - 1 && b != [] then b[0] else m[a[k]].next
    {
      assert a[k] in a && tail in a && (b != [] ==> b[0] in b);
    }
    forall k | 0 <= k < |b|
      ensures b[k] in m && b[k] in m' && m'[b[k]].next == m[b[k]].next
      ensures m'[b[k]].previous == if k == 0 then tail else m[b[k]].previous
    {
      assert b[k] in b && b[k] !in a && tail in a && head in a;
    }
    hide Dumped;
    HeadMarked(m, a, tail, garbage);
    ChainJoined(m, m', a, b);
  }

  lemma HeadMarked(m: Ages, a: seq<nat>, tail: nat, garbage: nat)
    requires a != [] && a[0] in m && tail in m
    ensures Dumped(m, a[0], tail, garbage)[a[0]].timeslice == GARBAGE
  {
  }

  function Last(l: seq<nat>): nat {
    if l == [] then 0 else l[|l| - 1]
  }

  lemma LinkedTick(m: Ages, slots: seq<nat>, lists: seq<seq<nat>>, where: map<nat, nat>, last: nat)
    requires |lists| == SLICES + 2 == |slots| && last < SLICES && lists[last] != []
    requires Linked(m, slots, lists) && Filed(m, lists, where)
    ensures Linked(Dumped(m, slots[last], Last(lists[last]), slots[GARBAGE]), DumpedSlots(slots, last), DumpedLists(lists, last))
    ensures slots[last] in m && Last(lists[last]) in m
  {
    hide Chain, Marked;
    var a, b := lists[last], lists[GARBAGE];
    SlotOf(m, slots, lists, last);
    SlotOf(m, slots, lists, GARBAGE);
    assert a[0] in a && a[|a| - 1] in a;
    ChainDumped(m, a, b);
    var m' := Dumped(m, a[0], a[|a| - 1], slots[GARBAGE]);
    EmptyChain(m', last);
    var slots', lists' := DumpedSlots(slots, last), DumpedLists(lists, last);
    forall t | 0 <= t < |lists'|
      ensures Chain(m', slots'[t], lists'[t]) && Marked(m', t, lists'[t])
    {
      if t != last && t != GARBAGE {
        DumpKeeps(m, slots, lists, where, last, t);
      }
    }
  }

  /** The other lists are not touched when a slice is dumped. */
  lemma DumpKeeps(m: Ages, slots: seq<nat>, lists: seq<seq<nat>>, where: map<nat, nat>, last: nat, t: nat)
    requires |lists| == SLICES + 2 == |slots| && last < SLICES && lists[last] != []
    requires Linked(m, slots, lists) && Filed(m, lists, where) && t < |lists| && t != last && t != GARBAGE
    ensures
      var m' := Dumped(m, lists[last][0], Last(lists[last]), slots[GARBAGE]);
      Chain(m', slots[t], lists[t]) && Marked(m', t, lists[t])
  {
    hide Chain, Marked, Dumped;
    var a := lists[last];
    var m' := Dumped(m, a[0], Last(a), slots[GARBAGE]);
    assert a[0] in a && Last(a) in a;
    SlotOf(m, slots, lists, GARBAGE);
    assert lists[GARBAGE] != [] ==> slots[GARBAGE] in lists[GARBAGE];
    forall f | f in lists[t] && f in m
      ensures f in m' && m'[f] == m[f]
    {
      DumpedElsewhere(m, a[0], Last(a), slots[GARBAGE], f);
    }
    ChainKept(m, m', t, slots[t], lists[t]);
  }

  lemma DumpedElsewhere(m: Ages, head: nat, tail: nat, garbage: nat, f: nat)
    requires f in m && f != head && f != tail && f != garbage
    ensures f in Dumped(m, head, tail, garbage) && Dumped(m, head, tail, garbage)[f] == m[f]
  {
  }

  lemma EmptyChain(m: Ages, s: int)
    ensures Chain(m, 0, []) && Marked(m, s, [])
  {
  }

  lemma FiledTick(m: Ages, m': Ages, lists: seq<seq<nat>>, where: map<nat, nat>, last: nat)
    requires Filed(m, lists, where) && |lists| == SLICES + 2 && last < SLICES && m'.Keys == m.Keys
    ensures Filed(m', DumpedLists(lists, last), Refiled(where, lists[last], GARBAGE))
  {
    var lists', where' := DumpedLists(lists, last), Refiled(where, lists[last], GARBAGE);
    assert where'.Keys == m'.Keys && 0 !in m' && |lists'| == |lists|;
    forall t, f | 0 <= t < |lists'| && f in lists'[t]
      ensures Files(m', where', t, f)
    {
      RefiledFrom(m, lists, where, last, t, f);
    }
    forall f | f in m'
      ensures Holds(lists', where', f)
    {
      RefiledTo(m, lists, where, last, f);
    }
    hide DumpedLists, Refiled, Filed, Files, Holds;
    FiledFrom(m', lists', where');
  }

  ghost predicate Files(m: Ages, where: map<nat, nat>, t: nat, f: nat) {
    f in m && f in where && where[f] == t
  }

  ghost predicate Holds(lists: seq<seq<nat>>, where: map<nat, nat>, f: nat) {
    f in where && where[f] < |lists| && f in lists[where[f]]
  }

  lemma FiledFrom(m: Ages, lists: seq<seq<nat>>, where: map<nat, nat>)
    requires where.Keys == m.Keys && 0 !in m
    requires forall t, f :: 0 <= t < |lists| && f in lists[t] ==> Files(m, where, t, f)
    requires forall f :: f in m ==> Holds(lists, where, f)
    ensures Filed(m, lists, where)
  {
  }

  lemma RefiledFrom(m: Ages, lists: seq<seq<nat>>, where: map<nat, nat>, last: nat, t: nat, f: nat)
    requires Filed(m, lists, where) && |lists| == SLICES + 2 && last < SLICES && t < |lists| && f in DumpedLists(lists, last)[t]
    ensures f in m && Refiled(where, lists[last], GARBAGE)[f] == t
  {
    assert f in lists[t] || (t == GARBAGE && f in lists[last]);
  }

  lemma RefiledTo(m: Ages, lists: seq<seq<nat>>, where: map<nat, nat>, last: nat, f: nat)
    requires Filed(m, lists, where) && |lists| == SLICES + 2 && last < SLICES && f in m
    ensures f in where && Refiled(where, lists[last], GARBAGE)[f] < |lists|
    ensures f in DumpedLists(lists, last)[Refiled(where, lists[last], GARBAGE)[f]]
  {
    assert f in lists[where[f]];
  }

  /** One tick later all in the ring are one tick older, and the slice to be used next falls out. */
  lemma AgedTick(tick: nat, lists: seq<seq<nat>>, touch: map<nat, nat>, last: nat)
    requires Aged(tick, lists, touch) && last == (tick + 1) % SLICES
    ensures Aged(tick + 1, DumpedLists(lists, last), touch)
    ensures (tick % SLICES + SLICES + 1) % SLICES == last && (tick % SLICES + 1) % SLICES == last
  {
    NextSlice(tick);
    hide Ago;
    forall s | 0 <= s < SLICES
      ensures s != last ==> Ago(last, s) == Ago(tick % SLICES, s) + 1
      ensures s == last ==> Ago(tick % SLICES, s) == SLICES - 1
    {
      AgoNext(tick % SLICES, s);
    }
  }

  lemma NextSlice(tick: nat)
    ensures (tick % SLICES + SLICES + 1) % SLICES == (tick + 1) % SLICES == (tick % SLICES + 1) % SLICES
  {
  }

  lemma AgoNext(current: nat, s: nat)
    requires current < SLICES && s < SLICES
    ensures var last := (current + 1) % SLICES;
      if s == last then Ago(current, s) == SLICES - 1 else Ago(last, s) == Ago(current, s) + 1
  {
  }

  /** Only the first of the files that are dumped gets a new mark. */
  ghost predicate Remarked(m: Ages, m': Ages, l: seq<nat>) {
    forall f :: f in m && f in m' ==> m'[f].timeslice == if l != [] && f == l[0] then GARBAGE else m[f].timeslice
  }

  /** The file `f` was taken out of its list, where it was the one at `i`. */
  ghost predicate TakenOut(lists: seq<seq<nat>>, lists': seq<seq<nat>>, s: nat, f: nat, i: nat) {
    s < |lists| && i < |lists[s]| && lists[s][i] == f && lists' == lists[s := lists[s][..i] + lists[s][i + 1..]]
  }

  /** The file behind the one that leaves gets its mark. */
  ghost predicate MarkPassed(m: Ages, m': Ages, l: seq<nat>, i: nat) {
    && i < |l| && l[i] in m
    && forall g :: g in m && g in m' ==>
         m'[g].timeslice == if i + 1 < |l| && g == l[i + 1] then m[l[i]].timeslice else m[g].timeslice
  }

  lemma BridgedMarks(m: Ages, head: nat, l: seq<nat>, i: nat)
    requires Chain(m, head, l) && i < |l| && 0 !in m
    ensures l[i] in m && MarkPassed(m, Bridged(m, l[i]) - {l[i]}, l, i)
  {
    assert m[l[i]].next == if i + 1 < |l| then l[i + 1] else 0;
  }

  ghost function Refiled(where: map<nat, nat>, l: seq<nat>, s: nat): map<nat, nat> {
    map f | f in where :: if f in l then s else where[f]
  }

  class Ring {
    var age: Ages
    var slots: seq<nat>
    var current: nat
    ghost var lists: seq<seq<nat>>
    ghost var where: map<nat, nat>
    ghost var tick: nat
    ghost var touch: map<nat, nat>

    ghost predicate Valid()
      reads this
    {
      current == tick % SLICES && Linked(age, slots, lists) && Filed(age, lists, where) && Aged(tick, lists, touch)
    }

    constructor ()
      ensures Valid() && age == map[] && tick == 0 && lists == seq(SLICES + 2, i => [])
    {
      age, current := map[], 0;
      slots := seq(SLICES + 2, i => 0);
      lists := seq(SLICES + 2, i => []);
      where, tick, touch := map[], 0, map[];
    }

    /** Puts a file at the head of a list. */
    method InsertInTs(f: nat, s: nat)
      requires Valid() && f != 0 && f !in age && (s == FREED || s == current)
      modifies this`age, this`slots, this`lists, this`where, this`touch
      ensures Valid() && lists == old(lists)[s := [f] + old(lists)[s]] && where == old(where)[f := s]
      ensures age.Keys == old(age).Keys + {f} && age[f].timeslice == s
      ensures forall g :: g in old(age) ==> age[g].timeslice == old(age)[g].timeslice
      ensures slots[s] == f && current == old(current)
      ensures touch == if s == FREED then old(touch) else old(touch)[f := tick]
    {
      hide Linked, Filed, Aged;
      Facts(age, slots, lists, where);
      LinkedMore(age, slots, lists, where, f, s);
      FiledMore(age, slots, lists, where, f, s);
      AgedMore(tick, lists, touch, s, f);
      var head := slots[s];
      if head != 0 {
        age := age[head := age[head].(previous := f)];
      }
      age := age[f := Age(s, 0, head)];
      slots := slots[s := f];
      lists := lists[s := [f] + lists[s]];
      where := where[f := s];
      if s != FREED {
        touch := touch[f := tick];
      }
    }

    /** Bridges the list over a file and clears the file's links. */
    method Bridge(f: nat)
      requires f in age && 0 !in age && age[f].previous != f && age[f].next != f
      requires age[f].previous == 0 ==> 0 <= age[f].timeslice < |slots| && slots[age[f].timeslice] == f
      requires age[f].previous != 0 ==> age[f].previous in age
      requires age[f].next != 0 ==> age[f].next in age && age[f].next != age[f].previous
      modifies this`age, this`slots
      ensures age == Bridged(old(age), f) - {f}
      ensures slots == if old(age)[f].previous == 0 then old(slots)[old(age)[f].timeslice := old(age)[f].next] else old(slots)
    {
      var a := age[f];
      if a.previous == 0 {
        slots := slots[a.timeslice := a.next];
      } else {
        age := age[a.previous := age[a.previous].(next := a.next)];
      }
      if a.next != 0 {
        age := age[a.next := age[a.next].(timeslice := a.timeslice, previous := a.previous)];
      }
      age := age - {f};
    }

    /** Takes a file out of its list. */
    method Remove(f: nat) returns (ghost i: nat)
      requires Valid() && f in age
      modifies this`age, this`slots, this`lists, this`where
      ensures Valid() && age.Keys == old(age).Keys - {f} && where == old(where) - {f}
      ensures TakenOut(old(lists), lists, old(where)[f], f, i) && MarkPassed(old(age), age, old(lists)[old(where)[f]], i)
    {
      hide Linked, Filed, Aged, Chain, Bridged, MarkPassed;
      ghost var s;
      s, i := Place(age, slots, lists, where, f);
      Facts(age, slots, lists, where);
      BridgedMarks(age, slots[s], lists[s], i);
      FileFacts(age, slots[s], lists[s], i);
      LinkedLess(age, slots, lists, where, s, i);
      FiledLess(age, lists, where, s, i);
      AgedLess(tick, lists, touch, s, i);
      BridgedKeys(age, f);
      Bridge(f);
      lists := lists[s := Without(lists[s], i)];
      where := where - {f};
    }

    /** Moves a file that is used to the slice of the present tick, unless it is marked as being there. */
    method Freshen(f: nat) returns (ghost between: seq<seq<nat>>, ghost i: nat)
      requires Valid() && f in age && where[f] != FREED
      modifies this`age, this`slots, this`lists, this`where, this`touch
      ensures Valid()
      ensures touch == if old(age)[f].timeslice == current then old(touch) else old(touch)[f := tick]
      ensures where == if old(age)[f].timeslice == current then old(where) else old(where)[f := current]
      ensures where[f] == current <==> !(old(where)[f] == GARBAGE && old(age)[f].timeslice == current)
      ensures old(age)[f].timeslice == current ==> lists == old(lists) && age == old(age)
      ensures old(age)[f].timeslice != current ==>
                && TakenOut(old(lists), between, old(where)[f], f, i) && |between| == SLICES + 2
                && lists == between[current := [f] + between[current]]
      ensures old(age)[f].timeslice != current ==>
                old(where)[f] < |old(lists)| && MarkPassed(old(age), age - {f}, old(lists)[old(where)[f]], i) && age[f].timeslice == current
    {
      hide Linked, Filed, Aged, Chain, TakenOut;
      MarkOf(age, slots, lists, where, f);
      between, i := lists, 0;
      if age[f].timeslice == current { return; }
      InList(age, lists, where, f);
      i := Remove(f);
      between := lists;
      Facts(age, slots, lists, where);
      InsertInTs(f, current);
    }

    /** Takes a record from the freed ones, to be used again. */
    method GetFreed() returns (f: nat)
      requires Valid()
      modifies this`age, this`slots, this`lists, this`where
      ensures Valid() && |old(lists)| == SLICES + 2 && (f == 0 <==> old(lists)[FREED] == [])
      ensures f == 0 ==> age == old(age) && where == old(where) && lists == old(lists)
      ensures f != 0 ==> f in old(age) && old(where)[f] == FREED && where == old(where) - {f} && age.Keys == old(age).Keys - {f}
      ensures f != 0 ==> f == old(lists)[FREED][0] && lists == old(lists)[FREED := old(lists)[FREED][1..]]
    {
      hide Linked, Filed, Aged, Chain, MarkPassed;
      SlotOf(age, slots, lists, FREED);
      f := slots[FREED];
      if f != 0 {
        FirstIn(age, lists, where, FREED);
        ghost var l := lists[FREED];
        ghost var i := Remove(f);
        OnlyAt(l, i);
      }
    }

    /** Visits the files of one list. */
    method CleanupList(a: nat) returns (visited: seq<nat>)
      requires Valid() && a < SLICES
      ensures forall f :: f in visited <==> f in age && where[f] != FREED && f in touch && tick - touch[f] == a
      ensures NoDup(visited)
    {
      hide Linked, Filed, Aged, Chain;
      var ts := (current + SLICES - a) % SLICES;
      SlotOf(age, slots, lists, ts);
      ghost var l := lists[ts];
      var file := slots[ts];
      visited := [];
      while file != 0
        invariant |visited| <= |l| && visited == l[..|visited|]
        invariant file == if |visited| < |l| then l[|visited|] else 0
        invariant |visited| < |l| ==> file != 0
        decreases |l| - |visited|
      {
        ListStep(age, slots[ts], l, |visited|);
        var next := age[file].next;
        visited := visited + [file];
        file := next;
      }
      assert visited == l;
      VisitedExact(age, lists, where, tick, touch, a);
    }

    /** Frees the records of the freed list. */
    method CleanupFreed()
      requires Valid()
      modifies this`age, this`slots, this`lists, this`where
      ensures Valid() && age.Keys == set f | f in old(age) && old(where)[f] != FREED
      ensures lists == old(lists)[FREED := []] && forall f :: f in age ==> age[f] == old(age)[f] && where[f] == old(where)[f]
    {
      hide Linked, Filed, Aged, Chain;
      FreedGone(age, slots, lists, where, tick, touch);
      SlotOf(age, slots, lists, FREED);
      var file := slots[FREED];
      ghost var l, k, m := lists[FREED], 0, age;
      while file != 0
        invariant 0 <= k <= |l| && file == if k < |l| then l[k] else 0
        invariant forall i :: 0 <= i < |l| ==> l[i] != 0
        invariant age == m - Firsts(l, k) && slots == old(slots) && lists == old(lists) && where == old(where)
        decreases |l| - k
      {
        ListStep(m, slots[FREED], l, k);
        FirstsNext(l, k);
        var next := age[file].next;
        age := age - {file};
        file := next;
        k := k + 1;
      }
      assert k == |l|;
      slots := slots[FREED := 0];
      lists := lists[FREED := []];
      where := where - Firsts(l, |l|);
      FiledKeys(age, lists, where);
    }

    /** The next tick: the list that is to be used next goes to the garbage. */
    method Update()
      requires Valid()
      modifies this`age, this`slots, this`lists, this`where, this`current, this`tick
      ensures Valid() && tick == old(tick) + 1 && age.Keys == old(age).Keys
      ensures current == (old(current) + 1) % SLICES && |lists| == |old(lists)| == SLICES + 2
      ensures lists[GARBAGE] == old(lists)[current] + old(lists)[GARBAGE] && lists[current] == []
      ensures forall s :: 0 <= s < SLICES + 2 && s != current && s != GARBAGE ==> lists[s] == old(lists)[s]
      ensures lists == DumpedLists(old(lists), current)
      ensures Remarked(old(age), age, old(lists)[(old(current) + 1) % SLICES])
    {
      hide Linked, Filed, Aged, Chain;
      var last := (current + SLICES + 1) % SLICES;
      AgedTick(tick, lists, touch, last);
      SlotOf(age, slots, lists, last);
      if slots[last] != 0 {
        DumpSlice(last);
      } else {
        NothingDumped(lists, last);
      }
      current := (current + 1) % SLICES;
      tick := tick + 1;
    }

    /** Puts a whole list in front of the garbage list. */
    method DumpSlice(last: nat)
      requires |lists| == SLICES + 2 == |slots| && last < SLICES && lists[last] != []
      requires Linked(age, slots, lists) && Filed(age, lists, where)
      modifies this`age, this`slots, this`lists, this`where
      ensures Linked(age, slots, lists) && Filed(age, lists, where) && age.Keys == old(age).Keys
      ensures lists == DumpedLists(old(lists), last) && Remarked(old(age), age, old(lists)[last])
    {
      hide Linked, Filed, Aged, Chain, DumpedLists, Refiled, Last, NoDup;
      SlotOf(age, slots, lists, last);
      LinkedTick(age, slots, lists, where, last);
      Facts(age, slots, lists, where);
      if slots[GARBAGE] != 0 {
        var file := FindTail(slots[last], lists[last]);
        age := age[file := age[file].(next := slots[GARBAGE])];
        age := age[slots[GARBAGE] := age[slots[GARBAGE]].(previous := file)];
      }
      slots := slots[GARBAGE := slots[last]];
      slots := slots[last := 0];
      age := age[slots[GARBAGE] := age[slots[GARBAGE]].(timeslice := GARBAGE)];
      FiledTick(old(age), age, lists, where, last);
      where := Refiled(where, lists[last], GARBAGE);
      lists := DumpedLists(lists, last);
    }

    /** The last file of a list. */
    method FindTail(head: nat, ghost l: seq<nat>) returns (file: nat)
      requires Chain(age, head, l) && l != []
      ensures file == Last(l) && file in age
    {
      hide Chain;
      ghost var k := 0;
      file := head;
      ListStep(age, head, l, 0);
      HeadOf(age, head, l);
      while age[file].next != 0
        invariant 0 <= k < |l| && file == l[k] && file in age
        invariant age[file].next == if k + 1 < |l| then l[k + 1] else 0
        invariant k + 1 < |l| ==> l[k + 1] != 0
        decreases |l| - k
      {
        file := age[file].next;
        k := k + 1;
        ListStep(age, head, l, k);
      }
    }
  }

  lemma HeadOf(m: Ages, head: nat, l: seq<nat>)
    requires Chain(m, head, l) && l != []
    ensures head == l[0]
  {
  }

  lemma NothingDumped(lists: seq<seq<nat>>, last: nat)
    requires |lists| == SLICES + 2 && last < SLICES && lists[last] == []
    ensures DumpedLists(lists, last) == lists
  {
    assert [] + lists[GARBAGE] == lists[GARBAGE];
  }

  ghost function Firsts(l: seq<nat>, k: nat): set<nat>
    requires k <= |l|
  {
    set f | f in l[..k]
  }

  lemma FirstsNext(l: seq<nat>, k: nat)
    requires k < |l| && NoDup(l)
    ensures Firsts(l, k + 1) == Firsts(l, k) + {l[k]} && l[k] !in Firsts(l, k)
  {
    assert l[..k + 1] == l[..k] + [l[k]];
  }

  lemma FreedLinked(m: Ages, slots: seq<nat>, lists: seq<seq<nat>>, where: map<nat, nat>, gone: set<nat>)
    requires Linked(m, slots, lists) && Filed(m, lists, where) && forall f :: f in gone ==> f in lists[FREED]
    ensures Linked(m - gone, slots[FREED := 0], lists[FREED := []])
  {
    hide Chain, Marked;
    EmptyChain(m - gone, FREED);
    forall t | 0 <= t < |lists| && t != FREED
      ensures Chain(m - gone, slots[t], lists[t]) && Marked(m - gone, t, lists[t])
    {
      ChainKept(m, m - gone, t, slots[t], lists[t]);
    }
  }

  lemma FreedFiled(m: Ages, lists: seq<seq<nat>>, where: map<nat, nat>, gone: set<nat>)
    requires Filed(m, lists, where) && |lists| == SLICES + 2 && forall f :: f in gone <==> f in lists[FREED]
    ensures Filed(m - gone, lists[FREED := []], where - gone)
    ensures (m - gone).Keys == set f | f in m && where[f] != FREED
  {
  }

  lemma FiledKeys(m: Ages, lists: seq<seq<nat>>, where: map<nat, nat>)
    requires Filed(m, lists, where)
    ensures where.Keys == m.Keys
  {
  }

  lemma AgedFreed(tick: nat, lists: seq<seq<nat>>, touch: map<nat, nat>)
    requires Aged(tick, lists, touch)
    ensures Aged(tick, lists[FREED := []], touch)
  {
  }

  /** Without its last list the rest stays as it is. */
  lemma FreedGone(m: Ages, slots: seq<nat>, lists: seq<seq<nat>>, where: map<nat, nat>, tick: nat, touch: map<nat, nat>)
    requires Linked(m, slots, lists) && Filed(m, lists, where) && Aged(tick, lists, touch)
    ensures |lists| == SLICES + 2 == |slots|
    ensures
      var gone := Firsts(lists[FREED], |lists[FREED]|);
      && Linked(m - gone, slots[FREED := 0], lists[FREED := []]) && Filed(m - gone, lists[FREED := []], where - gone)
      && Aged(tick, lists[FREED := []], touch)
      && (m - gone).Keys == set f | f in m && where[f] != FREED
    ensures forall i :: 0 <= i < |lists[FREED]| ==> lists[FREED][i] != 0
  {
    hide Linked, Filed, Aged, Chain, Marked;
    SlotOf(m, slots, lists, FREED);
    var l := lists[FREED];
    assert l[..|l|] == l;
    AgedFreed(tick, lists, touch);
    forall i | 0 <= i < |l|
      ensures l[i] != 0
    {
      ListStep(m, slots[FREED], l, i);
    }
    var gone := Firsts(l, |l|);
    FreedLinked(m, slots, lists, where, gone);
    FreedFiled(m, lists, where, gone);
  }

  /** What the place of a file says about it: the slice gives its age, the garbage list holds
      exactly those that are too old for the ring. */
  lemma PlaceMeaning(m: Ages, lists: seq<seq<nat>>, where: map<nat, nat>, tick: nat, touch: map<nat, nat>, f: nat)
    requires Filed(m, lists, where) && Aged(tick, lists, touch) && f in m && where[f] != FREED
    ensures f in touch && touch[f] <= tick
    ensures where[f] == GARBAGE <==> tick - touch[f] >= SLICES
    ensures where[f] < SLICES ==> tick - touch[f] == Ago(tick % SLICES, where[f])
  {
    assert f in lists[where[f]];
  }

  /** The files put into the ring `a` ticks ago are those of one list. */
  lemma VisitedExact(m: Ages, lists: seq<seq<nat>>, where: map<nat, nat>, tick: nat, touch: map<nat, nat>, a: nat)
    requires Filed(m, lists, where) && Aged(tick, lists, touch) && a < SLICES
    ensures var ts := (tick % SLICES + SLICES - a) % SLICES;
      forall f :: f in lists[ts] <==> f in m && where[f] != FREED && f in touch && tick - touch[f] == a
  {
    var ts := (tick % SLICES + SLICES - a) % SLICES;
    forall s | 0 <= s < SLICES
      ensures Ago(tick % SLICES, s) == a <==> s == ts
    {
    }
    forall f | f in m && where[f] != FREED
      ensures f in lists[ts] <==> f in touch && tick - touch[f] == a
    {
      assert f in lists[where[f]];
    }
  }

  /** Outside the garbage list every file is marked with the slice it is in. */
  lemma MarkOf(m: Ages, slots: seq<nat>, lists: seq<seq<nat>>, where: map<nat, nat>, f: nat)
    requires Linked(m, slots, lists) && Filed(m, lists, where) && f in m
    ensures f != 0 && f in where && (where[f] != GARBAGE ==> m[f].timeslice == where[f])
  {
    var s, i := Place(m, slots, lists, where, f);
    assert Marked(m, s, lists[s]);
  }

  lemma SlotOf(m: Ages, slots: seq<nat>, lists: seq<seq<nat>>, s: nat)
    requires Linked(m, slots, lists) && s < SLICES + 2
    ensures |slots| == |lists| == SLICES + 2 && Chain(m, slots[s], lists[s]) && NoDup(lists[s])
    ensures slots[s] == if lists[s] == [] then 0 else lists[s][0]
    ensures lists[s] != [] ==> lists[s][0] != 0
  {
  }

  lemma ListStep(m: Ages, head: nat, l: seq<nat>, k: nat)
    requires Chain(m, head, l) && k < |l|
    ensures l[k] in m && l[k] != 0 && m[l[k]].next == if k + 1 < |l| then l[k + 1] else 0
    ensures k + 1 < |l| ==> l[k + 1] != 0
  {
  }

  lemma BridgedKeys(m: Ages, f: nat)
    requires f in m
    ensures Bridged(m, f).Keys == m.Keys
  {
  }

  lemma Facts(m: Ages, slots: seq<nat>, lists: seq<seq<nat>>, where: map<nat, nat>)
    requires Linked(m, slots, lists) && Filed(m, lists, where)
    ensures |slots| == |lists| == SLICES + 2 && 0 !in m
    ensures forall s, f :: 0 <= s < |lists| && f in lists[s] ==> f in m
    ensures forall s :: 0 <= s < |slots| && slots[s] != 0 ==> slots[s] in m
    ensures forall s :: 0 <= s < |lists| ==> NoDup(lists[s])
  {
    forall s | 0 <= s < |lists|
      ensures slots[s] != 0 ==> slots[s] in m
      ensures NoDup(lists[s])
    {
      assert Chain(m, slots[s], lists[s]);
    }
  }

  /** The neighbours of a file are files, other than itself. */
  lemma FileFacts(m: Ages, head: nat, l: seq<nat>, i: nat)
    requires Chain(m, head, l) && i < |l| && 0 !in m
    ensures l[i] in m && m[l[i]].previous != l[i] && m[l[i]].next != l[i]
    ensures m[l[i]].previous != 0 ==> m[l[i]].previous in m
    ensures m[l[i]].next != 0 ==> m[l[i]].next in m && m[l[i]].next != m[l[i]].previous
  {
    assert m[l[i]].next == if i + 1 < |l| then l[i + 1] else 0;
    assert m[l[i]].previous == if i > 0 then l[i - 1] else 0;
  }

  lemma InList(m: Ages, lists: seq<seq<nat>>, where: map<nat, nat>, f: nat)
    requires Filed(m, lists, where) && f in m
    ensures f in where && where[f] < |lists|
  {
  }

  lemma FirstIn(m: Ages, lists: seq<seq<nat>>, where: map<nat, nat>, s: nat)
    requires Filed(m, lists, where) && s < |lists| && lists[s] != []
    ensures lists[s][0] in m && lists[s][0] in where && where[lists[s][0]] == s
  {
    assert lists[s][0] in lists[s];
  }

  lemma OnlyAt(l: seq<nat>, i: nat)
    requires NoDup(l) && i < |l| && l[i] == l[0]
    ensures i == 0 && l[..i] + l[i + 1..] == l[1..]
  {
  }

  lemma Place(m: Ages, slots: seq<nat>, lists: seq<seq<nat>>, where: map<nat, nat>, f: nat) returns (s: nat, i: nat)
    requires Linked(m, slots, lists) && Filed(m, lists, where) && f in m
    ensures s == where[f] < |lists| == |slots| && i < |lists[s]| && lists[s][i] == f && slots[s] == lists[s][0]
    ensures Chain(m, slots[s], lists[s])
  {
    s := where[f];
    i :| 0 <= i < |lists[s]| && lists[s][i] == f;
    assert Chain(m, slots[s], lists[s]);
  }

  // ---------------------------------------------------------------- a mark that is too old

  lemma Present(ring: Ring)
    requires ring.Valid()
    ensures ring.current == ring.tick % SLICES && |ring.lists| == SLICES + 2 && ring.where.Keys == ring.age.Keys
    ensures forall f :: f in ring.lists[GARBAGE] ==> f in ring.where && ring.where[f] == GARBAGE
  {
  }

  /** Nothing happens as long as the slices to come are empty. */
  method Idle(ring: Ring, n: nat)
    requires ring.Valid() && ring.tick == 0 && n < SLICES && |ring.lists| == SLICES + 2
    requires forall s :: 0 < s <= n ==> ring.lists[s] == []
    modifies ring`age, ring`slots, ring`lists, ring`where, ring`current, ring`tick
    ensures ring.Valid() && ring.tick == n && ring.lists == old(ring.lists) && ring.age.Keys == old(ring.age).Keys
    ensures forall f :: f in ring.age ==> ring.age[f].timeslice == old(ring.age)[f].timeslice
  {
    hide Ring.Valid, DumpedLists;
    var k := 0;
    while k < n
      invariant k <= n && ring.Valid() && ring.tick == k && ring.lists == old(ring.lists) && ring.age.Keys == old(ring.age).Keys
      invariant forall f :: f in ring.age ==> ring.age[f].timeslice == old(ring.age)[f].timeslice
    {
      Present(ring);
      NothingDumped(ring.lists, k + 1);
      ring.Update();
      k := k + 1;
    }
  }

  /** Two files are put into the ring at once. */
  method TwoFiles() returns (ring: Ring)
    ensures ring.Valid() && ring.tick == 0 && |ring.lists| == SLICES + 2 && ring.lists[0] == [2, 1] && fresh(ring)
    ensures forall s :: 0 < s < |ring.lists| ==> ring.lists[s] == []
    ensures 1 in ring.age && ring.age[1].timeslice == 0 && 1 in ring.touch && ring.touch[1] == 0
  {
    hide Ring.Valid;
    ring := new Ring();
    Present(ring);
    ring.InsertInTs(1, 0);
    Present(ring);
    ring.InsertInTs(2, 0);
    assert [1] + [] == [1] && [2] + [1] == [2, 1];
  }

  /** They are never used for a whole round of it. */
  method OneRound() returns (ring: Ring)
    ensures ring.Valid() && ring.tick == SLICES && 1 in ring.where && ring.where[1] == GARBAGE
    ensures 1 in ring.age && ring.age[1].timeslice == ring.current
    ensures 1 in ring.touch && ring.touch[1] == 0 && fresh(ring)
  {
    hide Ring.Valid, DumpedLists;
    ring := TwoFiles();
    DumpedFirst(ring.lists, [2, 1]);
    Idle(ring, SLICES - 1);
    Present(ring);
    ring.Update();
    Present(ring);
    assert 1 in [2, 1];
  }

  /** Then the older one is used: its mark says that it is in the present slice, and it stays in the
      garbage. */
  method UsedButGarbage() returns (ring: Ring)
    ensures ring.Valid() && ring.tick == SLICES && 1 in ring.where && ring.where[1] == GARBAGE
    ensures 1 in ring.touch && ring.touch[1] == 0
  {
    hide Ring.Valid;
    ring := OneRound();
    ghost var between, i := ring.Freshen(1);
  }

  lemma DumpedFirst(lists: seq<seq<nat>>, l: seq<nat>)
    requires |lists| == SLICES + 2 && lists[0] == l && lists[GARBAGE] == []
    ensures |DumpedLists(lists, 0)| == SLICES + 2 && DumpedLists(lists, 0)[GARBAGE] == l
  {
    assert l + [] == l;
  }
}
