/** The rings of entries that are hard links to one file. Entries are numbered; 0 stands for "none". */
module HardLinks {
  import opened Sequences

  const MAX_LINK_COUNT: nat := 1024

  /** The attributes of an entry: whether it is a regular file, its link count, and all else. */
  datatype Stat = Stat(regular: bool, nlink: int, other: nat)

  /** The links `h` form one cycle through `l`; an entry on its own has no link. */
  ghost predicate Cycle(h: seq<nat>, l: seq<nat>) {
    && l != [] && NoDup(l) && (forall i :: 0 <= i < |l| ==> 0 < l[i] < |h|)
    && (|l| == 1 ==> h[l[0]] == 0)
    && (|l| > 1 ==> forall i {:trigger h[l[i]]} :: 0 <= i < |l| ==> h[l[i]] == if i + 1 < |l| then l[i + 1] else l[0])
  }

  ghost function Turned(l: seq<nat>, k: nat): seq<nat>
    requires k <= |l|
  {
    l[k..] + l[..k]
  }

  lemma TurnedAt(l: seq<nat>, k: nat, i: nat)
    requires k < |l| && i < |l|
    ensures |Turned(l, k)| == |l|
    ensures Turned(l, k)[i] == l[if i + k < |l| then i + k else i + k - |l|]
  {
  }

  lemma TurnedNoDup(l: seq<nat>, k: nat)
    requires NoDup(l) && k < |l|
    ensures NoDup(Turned(l, k)) && |Turned(l, k)| == |l|
    ensures forall x :: x in Turned(l, k) <==> x in l
  {
    assert l == l[..k] + l[k..];
    forall i, j | 0 <= i < j < |l|
      ensures |Turned(l, k)| == |l| && Turned(l, k)[i] != Turned(l, k)[j]
    {
      TurnedAt(l, k, i);
      TurnedAt(l, k, j);
    }
  }

  /** A cycle may be read from any of its entries. */
  lemma CycleTurned(h: seq<nat>, l: seq<nat>, k: nat)
    requires Cycle(h, l) && k < |l|
    ensures Cycle(h, Turned(l, k)) && Turned(l, k)[0] == l[k] && |Turned(l, k)| == |l|
    ensures forall x :: x in Turned(l, k) <==> x in l
  {
    TurnedNoDup(l, k);
    TurnedAt(l, k, 0);
    var t := Turned(l, k);
    hide Turned, NoDup;
    forall i | 0 <= i < |t|
      ensures 0 < t[i] < |h|
      ensures |l| > 1 ==> h[t[i]] == if i + 1 < |t| then t[i + 1] else t[0]
    {
      TurnedAt(l, k, i);
      TurnedAt(l, k, if i + 1 < |l| then i + 1 else 0);
    }
    assert |l| == 1 ==> t[0] == l[0];
  }

  lemma RingStep(h: seq<nat>, l: seq<nat>, k: nat)
    requires Cycle(h, l) && |l| > 1 && k < |l|
    ensures l[k] < |h| && h[l[k]] == (if k + 1 < |l| then l[k + 1] else l[0]) && 0 < h[l[k]] < |h|
    ensures h[l[k]] == l[0] <==> k == |l| - 1
    ensures k > 0 ==> l[k] != l[0]
  {
  }

  /** The links determine the cycle. */
  lemma CycleUnique(h: seq<nat>, l: seq<nat>, l': seq<nat>)
    requires Cycle(h, l) && Cycle(h, l') && l[0] == l'[0]
    ensures l == l'
  {
    if |l| > 1 && |l'| > 1 {
      var k := 1;
      while k < |l| && k < |l'|
        invariant 1 <= k <= |l| && k <= |l'|
        invariant forall i :: 0 <= i < k ==> l[i] == l'[i]
      {
        RingStep(h, l, k - 1);
        RingStep(h, l', k - 1);
        k := k + 1;
      }
      RingStep(h, l, k - 1);
      RingStep(h, l', k - 1);
    }
  }

  /** Links of entries outside a ring do not matter to it. */
  lemma CycleKept(h: seq<nat>, h': seq<nat>, l: seq<nat>)
    requires Cycle(h, l) && |h'| == |h| && forall x :: x in l && x < |h| ==> h'[x] == h[x]
    ensures Cycle(h', l)
  {
    assert forall i :: 0 <= i < |l| ==> l[i] in l;
  }

  lemma CycleSpliced(h: seq<nat>, l: seq<nat>, to: nat)
    requires Cycle(h, l) && 0 < to < |h| && to !in l
    ensures Cycle(h[to := if h[l[0]] != 0 then h[l[0]] else l[0]][l[0] := to], [l[0], to] + l[1..])
  {
    var h' := h[to := if h[l[0]] != 0 then h[l[0]] else l[0]][l[0] := to];
    var l' := [l[0], to] + l[1..];
    assert forall i :: 2 <= i < |l'| ==> l'[i] == l[i - 1] && l[i - 1] in l && l'[i] != l[0];
    assert |l| > 1 ==> h[l[0]] == l[1];
  }

  lemma CycleBridged(h: seq<nat>, l: seq<nat>)
    requires Cycle(h, l) && |l| > 1
    ensures l[|l| - 1] < |h|
    ensures Cycle(h[l[|l| - 1] := if |l| == 2 then 0 else h[l[0]]], l[1..])
  {
    var h' := h[l[|l| - 1] := if |l| == 2 then 0 else h[l[0]]];
    var l' := l[1..];
    assert forall i :: 0 <= i < |l'| ==> l'[i] == l[i + 1];
    assert |l| > 2 ==> h[l[0]] == l[1];
  }

  // ---------------------------------------------------------------- all rings

  /** Each live entry is on a cycle of live entries, listed from it on. */
  ghost predicate RingsOk(h: seq<nat>, live: set<nat>, ring: map<nat, seq<nat>>) {
    && ring.Keys == live
    && forall i :: i in live ==> i in ring && Cycle(h, ring[i]) && ring[i][0] == i && forall x :: x in ring[i] ==> x in live
  }

  /** The links of the live entries form rings. */
  ghost predicate RingsFit(h: seq<nat>, live: set<nat>) {
    exists ring :: RingsOk(h, live, ring)
  }

  /** Every entry counts the links of its file. */
  ghost predicate CountsRight(stat: seq<Stat>, live: set<nat>, ring: map<nat, seq<nat>>) {
    forall i :: i in live && i < |stat| && i in ring ==> stat[i].nlink == |ring[i]|
  }

  /** Two rings are the same or have nothing in common. */
  lemma SameRing(h: seq<nat>, live: set<nat>, ring: map<nat, seq<nat>>, i: nat, j: nat, x: nat)
    requires RingsOk(h, live, ring) && i in live && j in live && x in ring[i] && x in ring[j]
    ensures j in ring[i] && i in ring[j] && |ring[i]| == |ring[j]|
  {
    var a :| 0 <= a < |ring[i]| && ring[i][a] == x;
    var b :| 0 <= b < |ring[j]| && ring[j][b] == x;
    CycleTurned(h, ring[i], a);
    CycleTurned(h, ring[j], b);
    CycleUnique(h, Turned(ring[i], a), Turned(ring[j], b));
    assert ring[i][0] in ring[i] && ring[j][0] in ring[j];
  }

  ghost function IndexIn(l: seq<nat>, x: nat): (k: nat)
    requires x in l
    ensures k < |l| && l[k] == x
  {
    if l[0] == x then 0 else IndexIn(l[1..], x) + 1
  }

  /** `to` is on the rings of `from`'s links, and the other rings are as they were. */
  ghost predicate Joined(live: set<nat>, ring: map<nat, seq<nat>>, ring': map<nat, seq<nat>>, from: nat, to: nat) {
    && from in ring && from in ring' && to in ring' && (forall x :: x in ring'[to] <==> x in ring'[from])
    && forall i :: i in live ==>
         i in ring && i in ring' && forall x :: x in ring'[i] <==> x in ring[i] || (x == to && i in ring[from])
  }

  /** `m` is on no ring of the others any more, which are as they were but for it. */
  ghost predicate Parted(live: set<nat>, ring: map<nat, seq<nat>>, ring': map<nat, seq<nat>>, m: nat) {
    m in ring && forall i :: i in live ==> i in ring && i in ring' && forall x :: x in ring'[i] <==> x in ring[i] && x != m
  }

  /** The rings once those of `l` are the cycle `l`, and the rest is as before. */
  ghost function Rejoined(live: set<nat>, ring: map<nat, seq<nat>>, l: seq<nat>): map<nat, seq<nat>> {
    map i | i in live :: if i in l then Turned(l, IndexIn(l, i)) else if i in ring then ring[i] else [i]
  }

  /** The links have changed on one cycle only. */
  lemma RingsRejoined(h: seq<nat>, h': seq<nat>, live: set<nat>, live': set<nat>, ring: map<nat, seq<nat>>, l: seq<nat>)
    requires RingsOk(h, live, ring) && |h'| == |h| && Cycle(h', l) && forall x :: x in l ==> x in live'
    requires forall i :: i in live' ==> i in l || (i in live && forall x :: x in ring[i] ==> x in live' && (x < |h| ==> h'[x] == h[x]))
    ensures RingsOk(h', live', Rejoined(live', ring, l))
  {
    hide Cycle, Turned, IndexIn;
    var ring' := Rejoined(live', ring, l);
    forall i | i in live'
      ensures Cycle(h', ring'[i]) && ring'[i] != [] && ring'[i][0] == i && forall x :: x in ring'[i] ==> x in live'
    {
      if i in l {
        CycleTurned(h', l, IndexIn(l, i));
      } else {
        CycleKept(h, h', ring[i]);
      }
    }
  }

  /** `to` is spliced in behind `from`. */
  lemma RingLinked(h: seq<nat>, live: set<nat>, ring: map<nat, seq<nat>>, from: nat, to: nat)
    requires RingsOk(h, live, ring) && from in live && 0 < to < |h| && to !in live && from < |h|
    ensures
      var h' := h[to := if h[from] != 0 then h[from] else from][from := to];
      var l := [from, to] + ring[from][1..];
      && (forall x :: x in l <==> x == to || x in ring[from]) && |l| == |ring[from]| + 1 && NoDup(l)
      && RingsOk(h', live + {to}, Rejoined(live + {to}, ring, l))
  {
    var h' := h[to := if h[from] != 0 then h[from] else from][from := to];
    var l := [from, to] + ring[from][1..];
    assert ring[from] == [from] + ring[from][1..];
    CycleSpliced(h, ring[from], to);
    forall i, x | i in live && i !in l && x in ring[i]
      ensures x in live && (x < |h| ==> h'[x] == h[x])
    {
      if x == from { SameRing(h, live, ring, i, from, from); }
    }
    RingsRejoined(h, h', live, live + {to}, ring, l);
  }

  /** `m` is bridged over and wiped. */
  lemma RingUnlinked(h: seq<nat>, live: set<nat>, ring: map<nat, seq<nat>>, m: nat)
    requires RingsOk(h, live, ring) && m in live && |ring[m]| > 1
    ensures
      var l := ring[m];
      && l[|l| - 1] < |h| && m < |h|
      && RingsOk(h[l[|l| - 1] := if |l| == 2 then 0 else h[m]][m := 0], live - {m}, Rejoined(live - {m}, ring, l[1..]))
  {
    var l := ring[m];
    var h1 := h[l[|l| - 1] := if |l| == 2 then 0 else h[m]];
    CycleBridged(h, l);
    assert l == [m] + l[1..] && m !in l[1..];
    CycleKept(h1, h1[m := 0], l[1..]);
    forall i, x | i in live - {m} && i !in l[1..] && x in ring[i]
      ensures x in live - {m} && (x < |h| ==> h1[m := 0][x] == h[x])
    {
      if x in l { SameRing(h, live, ring, m, i, x); }
    }
    RingsRejoined(h, h1[m := 0], live, live - {m}, ring, l[1..]);
  }

  /** An entry that goes without its ring being told leaves a link to nothing, unless it was alone. */
  lemma RingForgotten(h: seq<nat>, live: set<nat>, ring: map<nat, seq<nat>>, m: nat)
    requires RingsOk(h, live, ring) && m in live && m < |h|
    ensures RingsFit(h[m := 0], live - {m}) <==> |ring[m]| == 1
    ensures |ring[m]| == 1 ==> RingsOk(h[m := 0], live - {m}, ring - {m}) && Parted(live - {m}, ring, ring - {m}, m)
  {
    var l, h', live' := ring[m], h[m := 0], live - {m};
    if |l| == 1 {
      forall i, x | i in live' && x in ring[i]
        ensures x != m
      {
        if x == m { SameRing(h, live, ring, m, i, m); }
      }
      forall i | i in live'
        ensures Cycle(h', ring[i])
      {
        CycleKept(h, h', ring[i]);
      }
      assert RingsOk(h', live', ring - {m});
    } else {
      var p := l[|l| - 1];
      RingStep(h, l, |l| - 1);
      assert p in live';
      forall ring' | RingsOk(h', live', ring')
        ensures false
      {
        RingPoints(h', live', ring', p);
      }
    }
  }

  lemma RingPoints(h: seq<nat>, live: set<nat>, ring: map<nat, seq<nat>>, p: nat)
    requires RingsOk(h, live, ring) && p in live && p < |h| && h[p] != 0
    ensures h[p] in live
  {
    if |ring[p]| > 1 { RingStep(h, ring[p], 0); }
  }

  /** The entries of the store, as far as their links and attributes go. */
  class Rings {
    var hardlink: seq<nat>
    var stat: seq<Stat>
    var live: set<nat>
    ghost var ring: map<nat, seq<nat>>

    ghost predicate Valid()
      reads this
    {
      |hardlink| == |stat| && RingsOk(hardlink, live, ring)
    }

    ghost predicate Right()
      reads this
    {
      CountsRight(stat, live, ring)
    }

    constructor (n: nat)
      ensures Valid() && live == {} && |hardlink| == n && Right()
    {
      hardlink := seq(n, i => 0);
      stat := seq(n, i => Stat(false, 0, 0));
      live, ring := {}, map[];
    }

    /** A new entry. One that was read from the source directory brings the link count it has there. */
    method Make(id: nat, st: Stat)
      requires Valid() && 0 < id < |hardlink| && id !in live
      modifies this
      ensures Valid() && |hardlink| == |old(hardlink)| && live == old(live) + {id} && ring == old(ring)[id := [id]]
      ensures stat == old(stat)[id := st]
      ensures old(Right()) ==> (Right() <==> st.nlink == 1)
    {
      stat := stat[id := st];
      hardlink := hardlink[id := 0];
      live, ring := live + {id}, ring[id := [id]];
    }

    /** Makes the new entry `to` another link to what `from` is: it follows it on the ring. If counts
        were right they still are exactly if there was no other link: those further on are not told. */
    method Link(from: nat, to: nat)
      requires Valid() && from in live && 0 < to < |hardlink| && to !in live
      modifies this
      ensures Valid() && |hardlink| == |old(hardlink)| && live == old(live) + {to}
      ensures from in ring && ring[from] == [from, to] + old(ring)[from][1..]
      ensures from < |stat| && to < |stat| && |stat| == |old(stat)|
      ensures stat == old(stat)[to := stat[to]][from := stat[from]]
      ensures stat[to] == stat[from] == old(stat)[from].(nlink := old(stat)[from].nlink + 1)
      ensures forall i :: i in old(live) ==>
                i in ring && i in old(ring) && |ring[i]| == |old(ring)[i]| + if i in old(ring)[from] then 1 else 0
      ensures to in ring && |ring[to]| == |ring[from]|
      ensures Joined(old(live), old(ring), ring, from, to)
      ensures old(Right()) ==> (Right() <==> |old(ring)[from]| == 1)
    {
      hide RingsOk, Rejoined, Cycle, CountsRight, NoDup, Turned, IndexIn, Joined;
      InRange(hardlink, live, ring, from);
      RingLinked(hardlink, live, ring, from, to);
      ghost var l := [from, to] + ring[from][1..];
      ghost var ring' := Rejoined(live + {to}, ring, l);
      var fromStat, nextHardlink := stat[from], hardlink[from];
      stat := stat[to := fromStat];
      hardlink := hardlink[to := if nextHardlink != 0 then nextHardlink else from];
      stat := stat[to := stat[to].(nlink := stat[to].nlink + 1)];
      stat := stat[from := stat[from].(nlink := stat[from].nlink + 1)];
      hardlink := hardlink[from := to];
      live, ring := live + {to}, ring';
      Spliced(old(live), old(ring), from, to);
      LinkLengths(old(hardlink), old(live), old(ring), from, to);
      LinkJoins(old(hardlink), old(live), old(ring), from, to);
      if old(Right()) { LinkCounts(old(hardlink), old(stat), stat, old(live), old(ring), from, to); }
    }

    /** Takes an entry out of its ring and counts it off everywhere else. mcachefs aborts on an entry
        that has no ring, and on rings of more than 1024. */
    method UnlinkList(m: nat) returns (bug: bool)
      requires Valid() && m in live
      modifies this`hardlink, this`stat
      ensures m < |hardlink| == |old(hardlink)| && m in ring
      ensures bug <==> |ring[m]| == 1 || |ring[m]| > MAX_LINK_COUNT
      ensures !bug ==>
                var l := ring[m];
                l[|l| - 1] < |hardlink| && hardlink == old(hardlink)[l[|l| - 1] := if |l| == 2 then 0 else old(hardlink)[m]]
      ensures !bug ==> |stat| == |old(stat)| && forall i :: 0 <= i < |stat| ==>
                stat[i] == if i in ring[m][1..] then old(stat)[i].(nlink := old(stat)[i].nlink - 1) else old(stat)[i]
    {
      InRange(hardlink, live, ring, m);
      ghost var l := ring[m];
      if hardlink[m] == 0 { return true; }
      var next, count := hardlink[m], 0;
      while true
        invariant 0 <= count < |l| - 1 && next == l[count + 1] && next < |hardlink| && hardlink == old(hardlink)
        invariant count < MAX_LINK_COUNT && |stat| == |hardlink|
        invariant forall i :: 0 <= i < |stat| ==>
                    stat[i] == if i in l[1..count + 1] then old(stat)[i].(nlink := old(stat)[i].nlink - 1) else old(stat)[i]
        decreases |l| - count
      {
        count := count + 1;
        if count >= MAX_LINK_COUNT { return true; }
        stat := stat[next := stat[next].(nlink := stat[next].nlink - 1)];
        if hardlink[next] == 0 { return true; }
        if hardlink[next] == m {
          if hardlink[m] == next {
            hardlink := hardlink[next := 0];
          } else {
            hardlink := hardlink[next := hardlink[m]];
          }
          break;
        }
        next := hardlink[next];
      }
      assert l[1..count + 1] == l[1..];
      bug := false;
    }

    /** An entry is removed and wiped; its ring is told if it is no directory and counts more than one
        link. mcachefs aborts exactly if it does so while it is alone, or on too large a ring. Else the
        rings stay rings exactly if it was told or alone. */
    method Unlink(m: nat, isDir: bool) returns (bug: bool)
      requires Valid() && m in live
      modifies this
      ensures bug <==> !isDir && m < |old(stat)| && old(stat)[m].nlink > 1 && m in old(ring) &&
                       (|old(ring)[m]| == 1 || |old(ring)[m]| > MAX_LINK_COUNT)
      ensures live == old(live) - {m} && |hardlink| == |old(hardlink)| && m < |hardlink| && m in old(ring)
      ensures !bug ==> (RingsFit(hardlink, live) <==> (!isDir && old(stat)[m].nlink > 1) || |old(ring)[m]| == 1)
      ensures !bug && RingsFit(hardlink, live) ==> Valid()
      ensures !bug && RingsFit(hardlink, live) ==> forall i :: i in live ==>
                i in ring && i in old(ring) && |ring[i]| == |old(ring)[i]| - if i in old(ring)[m] then 1 else 0
      ensures !bug && RingsFit(hardlink, live) ==> Parted(live, old(ring), ring, m)
      ensures !bug ==> |stat| == |old(stat)| && forall i :: 0 <= i < |stat| && i != m ==>
                stat[i] == if !isDir && old(stat)[m].nlink > 1 && i in old(ring)[m] then
                             old(stat)[i].(nlink := old(stat)[i].nlink - 1)
                           else old(stat)[i]
      ensures !bug && (isDir || old(stat)[m].nlink <= 1) ==> hardlink == old(hardlink)[m := 0]
      ensures old(Right()) && !isDir && |old(ring)[m]| <= MAX_LINK_COUNT ==> !bug && Valid() && Right()
    {
      hide RingsOk, Rejoined, Cycle, NoDup, CountsRight;
      InRange(hardlink, live, ring, m);
      AloneCounts(hardlink, stat, stat[m := Stat(false, 0, 0)], live, ring, m);
      bug := false;
      ghost var ring' := ring - {m};
      ghost var told := !isDir && stat[m].nlink > 1;
      if !isDir && stat[m].nlink > 1 {
        bug := UnlinkList(m);
      }
      live := live - {m};
      if bug { return; }
      if told { RingUnlinked(old(hardlink), old(live), ring, m); } else { RingForgotten(hardlink, old(live), ring, m); }
      hardlink := hardlink[m := 0];
      stat := stat[m := Stat(false, 0, 0)];
      assert ring[m] == [m] + ring[m][1..];
      if told { UnlinkCounts(old(hardlink), old(stat), stat, old(live), ring, m); }
      ring := if told then Rejoined(live, ring, ring[m][1..]) else ring';
    }

    /** Gives all links the attributes of one of them. mcachefs aborts exactly on a regular file that
        counts more than one link but has no ring. */
    method NotifyUpdate(m: nat) returns (bug: bool)
      requires Valid() && m in live
      modifies this`stat
      ensures m < |old(stat)| == |stat| && m in ring
      ensures bug <==> old(stat)[m].regular && old(stat)[m].nlink > 1 && |ring[m]| == 1
      ensures !bug ==> forall i :: 0 <= i < |stat| ==>
                stat[i] == if i in ring[m] && old(stat)[m].regular && old(stat)[m].nlink > 1 then old(stat)[m] else old(stat)[i]
    {
      InRange(hardlink, live, ring, m);
      if !stat[m].regular || stat[m].nlink <= 1 { return false; }
      if hardlink[m] == 0 { return true; }
      ghost var l := ring[m];
      var next := hardlink[m];
      ghost var k := 0;
      while true
        invariant 0 <= k < |l| - 1 && next == l[k + 1] && next < |hardlink| && |stat| == |old(stat)|
        invariant stat[m] == old(stat)[m]
        invariant forall i :: 0 <= i < |stat| ==> stat[i] == if i in l[1..k + 1] then old(stat)[m] else old(stat)[i]
        decreases |l| - k
      {
        stat := stat[next := stat[m]];
        k := k + 1;
        if hardlink[next] == m { break; }
        next := hardlink[next];
      }
      assert l == [m] + l[1..k + 1];
      bug := false;
    }
  }

  lemma RejoinedLength(h: seq<nat>, live: set<nat>, ring: map<nat, seq<nat>>, live': set<nat>, l: seq<nat>, m: nat, i: nat)
    requires RingsOk(h, live, ring) && m in live && i in live && i in live' && (i in l <==> i in ring[m])
    ensures i in ring && |ring[i]| == |if i in ring[m] then ring[m] else ring[i]|
    ensures i in Rejoined(live', ring, l) && |Rejoined(live', ring, l)[i]| == if i in ring[m] then |l| else |ring[i]|
    ensures forall x :: x in Rejoined(live', ring, l)[i] <==> if i in ring[m] then x in l else x in ring[i]
  {
    if i in ring[m] {
      assert ring[i][0] == i;
      SameRing(h, live, ring, m, i, i);
      TurnedAt(l, IndexIn(l, i), 0);
      SameElements(l, IndexIn(l, i));
    }
  }

  lemma SameElements(l: seq<nat>, k: nat)
    requires k <= |l|
    ensures forall x :: x in Turned(l, k) <==> x in l
  {
    assert l == l[..k] + l[k..];
  }

  /** The entries on the ring of `m` are on each other's ring. */
  lemma OneRing(h: seq<nat>, live: set<nat>, ring: map<nat, seq<nat>>, m: nat, i: nat)
    requires RingsOk(h, live, ring) && m in live && i in live
    ensures m in ring && i in ring && ring[i] != [] && (i in ring[m] <==> m in ring[i])
    ensures i in ring[m] ==> forall x :: x in ring[m] <==> x in ring[i]
  {
    assert ring[i][0] == i && ring[m][0] == m;
    if m in ring[i] { SameRing(h, live, ring, i, m, m); }
    if i in ring[m] {
      var k :| 0 <= k < |ring[m]| && ring[m][k] == i;
      CycleTurned(h, ring[m], k);
      CycleUnique(h, Turned(ring[m], k), ring[i]);
    }
  }

  lemma LinkLengths(h: seq<nat>, live: set<nat>, ring: map<nat, seq<nat>>, from: nat, to: nat)
    requires RingsOk(h, live, ring) && from in live && to !in live
    ensures from in ring && |ring[from]| > 0
    ensures
      var ring' := Rejoined(live + {to}, ring, [from, to] + ring[from][1..]);
      && to in ring' && |ring'[to]| == |ring[from]| + 1
      && forall i :: i in live ==> i in ring && i in ring' && |ring'[i]| == |ring[i]| + if i in ring[from] then 1 else 0
  {
    InRange(h, live, ring, from);
    var live', l := live + {to}, [from, to] + ring[from][1..];
    assert ring[from] == [from] + ring[from][1..];
    hide Cycle, Turned, IndexIn, RingsOk;
    forall i | i in live
      ensures i in ring && i in Rejoined(live', ring, l)
      ensures |Rejoined(live', ring, l)[i]| == |ring[i]| + if i in ring[from] then 1 else 0
    {
      RejoinedLength(h, live, ring, live', l, from, i);
    }
    assert to in l;
    TurnedAt(l, IndexIn(l, to), 0);
  }

  lemma LinkJoins(h: seq<nat>, live: set<nat>, ring: map<nat, seq<nat>>, from: nat, to: nat)
    requires RingsOk(h, live, ring) && from in live && to !in live && from in ring && ring[from] != []
    ensures Joined(live, ring, Rejoined(live + {to}, ring, [from, to] + ring[from][1..]), from, to)
  {
    hide Cycle, RingsOk;
    var l := [from, to] + ring[from][1..];
    forall i | i in live
      ensures i in ring && i in Rejoined(live + {to}, ring, l)
      ensures forall x :: x in Rejoined(live + {to}, ring, l)[i] <==> x in ring[i] || (x == to && i in ring[from])
    {
      JoinsAt(h, live, ring, from, to, i);
    }
    hide Turned, IndexIn;
    assert to in l && from in l;
    SameElements(l, IndexIn(l, to));
    SameElements(l, IndexIn(l, from));
  }

  lemma JoinsAt(h: seq<nat>, live: set<nat>, ring: map<nat, seq<nat>>, from: nat, to: nat, i: nat)
    requires RingsOk(h, live, ring) && from in live && to !in live && from in ring && ring[from] != [] && i in live
    ensures i in ring && i in Rejoined(live + {to}, ring, [from, to] + ring[from][1..])
    ensures forall x :: x in Rejoined(live + {to}, ring, [from, to] + ring[from][1..])[i] <==>
                        x in ring[i] || (x == to && i in ring[from])
  {
    hide Cycle, Rejoined, RingsOk;
    InRange(h, live, ring, from);
    assert ring[from] == [from] + ring[from][1..];
    OneRing(h, live, ring, from, i);
    OnOwnRing(h, live, ring, i);
    RejoinedLength(h, live, ring, live + {to}, [from, to] + ring[from][1..], from, i);
  }

  lemma OnOwnRing(h: seq<nat>, live: set<nat>, ring: map<nat, seq<nat>>, i: nat)
    requires RingsOk(h, live, ring) && i in live
    ensures i in ring && i in ring[i] && forall x :: x in ring[i] ==> x in live
  {
  }

  /** Linking counts right exactly if the entry had no other links: those of a larger ring are not
      told. */
  lemma LinkCounts(h: seq<nat>, stat: seq<Stat>, stat': seq<Stat>, live: set<nat>, ring: map<nat, seq<nat>>, from: nat, to: nat)
    requires RingsOk(h, live, ring) && CountsRight(stat, live, ring) && from in live && to !in live
    requires |h| == |stat| == |stat'| && from < |stat| && to < |stat| && from in ring && |ring[from]| > 0
    requires stat'[to] == stat'[from] == stat[from].(nlink := stat[from].nlink + 1)
    requires forall i :: 0 <= i < |stat| && i != from && i != to ==> stat'[i] == stat[i]
    ensures CountsRight(stat', live + {to}, Rejoined(live + {to}, ring, [from, to] + ring[from][1..])) <==> |ring[from]| == 1
  {
    hide Rejoined, Cycle, RingsOk;
    LinkLengths(h, live, ring, from, to);
    InRange(h, live, ring, from);
    if |ring[from]| > 1 {
      var x := ring[from][1];
      NextLink(h, live, ring, from);
      assert x in ring[from];
    } else {
      assert forall i :: i in ring[from] ==> i == from;
    }
  }

  lemma NextLink(h: seq<nat>, live: set<nat>, ring: map<nat, seq<nat>>, m: nat)
    requires RingsOk(h, live, ring) && m in live && |ring[m]| > 1
    ensures ring[m][1] in live && ring[m][1] != m && ring[m][1] < |h|
  {
    RingStep(h, ring[m], 1);
  }

  lemma AloneCounts(h: seq<nat>, stat: seq<Stat>, stat': seq<Stat>, live: set<nat>, ring: map<nat, seq<nat>>, m: nat)
    requires RingsOk(h, live, ring) && m in live && |h| == |stat| == |stat'|
    requires forall i :: 0 <= i < |stat| && i != m ==> stat'[i] == stat[i]
    ensures CountsRight(stat, live, ring) ==> m < |stat| && m in ring && stat[m].nlink == |ring[m]|
    ensures m in ring && |ring[m]| == 1 ==>
              && (forall i :: i in live - {m} ==> i in ring - {m} && i !in ring[m])
              && (CountsRight(stat, live, ring) ==> CountsRight(stat', live - {m}, ring - {m}))
  {
  }

  /** Unlinking keeps right counts right. */
  lemma UnlinkCounts(h: seq<nat>, stat: seq<Stat>, stat': seq<Stat>, live: set<nat>, ring: map<nat, seq<nat>>, m: nat)
    requires RingsOk(h, live, ring) && m in live && |ring[m]| > 1 && |h| == |stat| == |stat'|
    requires forall i :: 0 <= i < |stat| && i != m ==>
               stat'[i] == if i in ring[m][1..] then stat[i].(nlink := stat[i].nlink - 1) else stat[i]
    ensures forall i :: i in live - {m} ==> i in ring && |Rejoined(live - {m}, ring, ring[m][1..])[i]| ==
                                                         |ring[i]| - if i in ring[m] then 1 else 0
    ensures Parted(live - {m}, ring, Rejoined(live - {m}, ring, ring[m][1..]), m)
    ensures CountsRight(stat, live, ring) ==> CountsRight(stat', live - {m}, Rejoined(live - {m}, ring, ring[m][1..]))
  {
    var live', l := live - {m}, ring[m][1..];
    assert ring[m] == [m] + l;
    forall i | i in live'
      ensures i in ring && i < |h| && (i in ring[m] <==> i in l)
      ensures |Rejoined(live', ring, l)[i]| == |ring[i]| - if i in ring[m] then 1 else 0
      ensures forall x :: x in Rejoined(live', ring, l)[i] <==> x in ring[i] && x != m
    {
      OneRing(h, live, ring, m, i);
      InRange(h, live, ring, i);
      RejoinedLength(h, live, ring, live', l, m, i);
    }
  }

  lemma InRange(h: seq<nat>, live: set<nat>, ring: map<nat, seq<nat>>, m: nat)
    requires RingsOk(h, live, ring) && m in live
    ensures 0 < m < |h| && m in ring && ring[m] != [] && ring[m][0] == m && (|ring[m]| == 1 <==> h[m] == 0)
  {
    if |ring[m]| > 1 { RingStep(h, ring[m], 0); }
  }

  lemma Spliced(live: set<nat>, ring: map<nat, seq<nat>>, from: nat, to: nat)
    requires from in live && from in ring && ring[from] != []
    ensures
      var l := [from, to] + ring[from][1..];
      var ring' := Rejoined(live + {to}, ring, l);
      from in ring' && ring'[from] == l
  {
    var l := [from, to] + ring[from][1..];
    assert Turned(l, IndexIn(l, from)) == l;
  }

  // ---------------------------------------------------------------- runs

  datatype Op = Made(id: nat, st: Stat) | Linked(from: nat, to: nat) | Unlinked(id: nat)

  /** The entries an operation is about are there, or not there yet. */
  predicate Possible(n: nat, live: set<nat>, op: Op) {
    match op
    case Made(id, _) => 0 < id < n && id !in live
    case Linked(from, to) => from in live && 0 < to < n && to !in live
    case Unlinked(id) => id in live
  }

  /** Nobody brings links from the source, and only files with one link are linked to. */
  predicate Modest(stat: seq<Stat>, op: Op) {
    match op
    case Made(_, st) => st.nlink == 1
    case Linked(from, _) => from < |stat| && stat[from].nlink == 1
    case Unlinked(_) => true
  }

  ghost predicate Pairs(live: set<nat>, ring: map<nat, seq<nat>>) {
    forall i :: i in live ==> i in ring && |ring[i]| <= 2
  }

  lemma RightAt(s: Rings)
    requires s.Valid()
    ensures forall i :: i in s.live ==> i in s.ring && i < |s.stat| && (s.Right() ==> s.stat[i].nlink == |s.ring[i]|)
  {
  }

  /** The entries between two operations. */
  datatype Snapshot = Snapshot(live: set<nat>, ring: map<nat, seq<nat>>, stat: seq<Stat>)

  ghost function Now(s: Rings): Snapshot
    reads s
  {
    Snapshot(s.live, s.ring, s.stat)
  }

  /** What an operation does: a new entry is alone, with its attributes; a link has the attributes and the ring
      of what it was linked to, which count one more; and one that is gone is on no ring, those it was with
      count one less. All other entries are as they were. */
  ghost predicate Effect(op: Op, t: Snapshot, t': Snapshot) {
    match op
    case Made(id, st) =>
      && t'.live == t.live + {id} && t'.ring == t.ring[id := [id]] && |t'.stat| == |t.stat| && id < |t.stat|
      && forall i :: 0 <= i < |t.stat| ==> t'.stat[i] == if i == id then st else t.stat[i]
    case Linked(from, to) =>
      && t'.live == t.live + {to} && Joined(t.live, t.ring, t'.ring, from, to)
      && |t'.stat| == |t.stat| && from < |t.stat| && to < |t.stat|
      && forall i :: 0 <= i < |t.stat| ==>
           t'.stat[i] == if i == from || i == to then t.stat[from].(nlink := t.stat[from].nlink + 1) else t.stat[i]
    case Unlinked(id) =>
      && t'.live == t.live - {id} && Parted(t'.live, t.ring, t'.ring, id) && |t'.stat| == |t.stat|
      && forall i :: 0 <= i < |t.stat| && i in t'.live ==>
           t'.stat[i] == if i in t.ring[id] then t.stat[i].(nlink := t.stat[i].nlink - 1) else t.stat[i]
  }

  method Perform(s: Rings, op: Op) returns (bug: bool)
    requires s.Valid() && Possible(|s.hardlink|, s.live, op)
    modifies s
    ensures |s.hardlink| == |old(s.hardlink)|
    ensures old(s.Right() && Pairs(s.live, s.ring) && Modest(s.stat, op)) ==>
              !bug && s.Valid() && s.Right() && Pairs(s.live, s.ring) && Effect(op, old(Now(s)), Now(s))
  {
    hide RingsOk, CountsRight, Joined, Parted;
    RightAt(s);
    bug := false;
    match op
    case Made(id, st) => s.Make(id, st);
    case Linked(from, to) => s.Link(from, to);
    case Unlinked(id) =>
      Alone(s, id);
      bug := s.Unlink(id, false);
  }

  lemma Alone(s: Rings, m: nat)
    requires s.Valid() && m in s.live
    ensures m in s.ring && m in s.ring[m] && (|s.ring[m]| == 1 ==> forall i :: i in s.ring[m] ==> i == m)
  {
  }

  /** Each operation had its effect. */
  ghost predicate Folds(ops: seq<Op>, trace: seq<Snapshot>) {
    |trace| <= |ops| + 1 && forall k :: 0 <= k < |trace| - 1 ==> Effect(ops[k], trace[k], trace[k + 1])
  }

  /** As long as all files have one or two links, all of them made here, every run of operations has the
      effect of each of them, none makes mcachefs abort, and every entry stays on a ring it counts right. */
  method Run(n: nat, ops: seq<Op>) returns (s: Rings, done: nat, bug: bool, ghost trace: seq<Snapshot>)
    ensures done <= |ops| && !bug && s.Valid() && s.Right() && Pairs(s.live, s.ring)
    ensures |trace| == done + 1 && trace[0].live == {} && trace[done] == Now(s) && Folds(ops, trace)
    ensures done < |ops| ==>
              match ops[done]
              case Made(id, st) => id == 0 || id >= n || id in s.live || st.nlink != 1
              case Linked(from, to) =>
                || from !in s.live || to == 0 || to >= n || to in s.live
                || (from < |s.stat| && s.stat[from].nlink != 1)
              case Unlinked(id) => id !in s.live
  {
    hide RingsOk, CountsRight, Effect;
    s := new Rings(n);
    done, bug, trace := 0, false, [Now(s)];
    while done < |ops|
      invariant done <= |ops| && !bug && s.Valid() && s.Right() && Pairs(s.live, s.ring) && fresh(s) && |s.hardlink| == n
      invariant |trace| == done + 1 && trace[0].live == {} && trace[done] == Now(s) && Folds(ops, trace)
    {
      RightAt(s);
      if !Possible(n, s.live, ops[done]) || !Modest(s.stat, ops[done]) { return; }
      bug := Perform(s, ops[done]);
      done, trace := done + 1, trace + [Now(s)];
    }
  }

  lemma Mates(s: Rings, i: nat, x: nat, y: nat)
    requires s.Valid() && i in s.live && x in s.ring[i] && y in s.ring[i]
    ensures x in s.live && y in s.live && x in s.ring && |s.ring[x]| == |s.ring[i]| && y in s.ring[x] && i in s.ring[x]
  {
    var h, live, ring := s.hardlink, s.live, s.ring;
    assert ring[x][0] == x && ring[y][0] == y;
    SameRing(h, live, ring, i, x, x);
    SameRing(h, live, ring, i, y, y);
    var a :| 0 <= a < |ring[i]| && ring[i][a] == x;
    CycleTurned(h, ring[i], a);
    CycleUnique(h, Turned(ring[i], a), ring[x]);
  }

  lemma TwoLinks(s: Rings, a: nat, b: nat)
    requires s.Valid() && s.live == {a, b} && a != b && |s.ring[a]| == 2
    ensures s.ring[a] == [a, b] && a < |s.hardlink| && s.hardlink[a] == b
  {
    RingStep(s.hardlink, s.ring[a], 0);
    assert s.ring[a][1] in s.ring[a] && s.ring[a][1] != a;
  }

  /** A third link, and two of them removed: the last one keeps a link to an entry that is gone. */
  method ThirdLink() returns (s: Rings, bug: bool)
    ensures !bug && 1 in s.live && 2 !in s.live && 1 < |s.hardlink| && s.hardlink[1] == 2
    ensures !RingsFit(s.hardlink, s.live)
  {
    hide RingsOk, CountsRight;
    s := new Rings(8);
    s.Make(1, Stat(true, 1, 0));
    s.Link(1, 2);
    assert s.ring[1] == [1, 2];
    s.Link(1, 3);
    assert s.ring[1] == [1, 3, 2];
    Mates(s, 1, 3, 2);
    bug := s.Unlink(3, false);
    TwoLinks(s, 1, 2);
    bug := s.Unlink(2, false);
  }

  /** A file with two links in the source: the first change of its attributes aborts, and so does its
      removal. */
  method LinksFromSource() returns (onUpdate: bool, onUnlink: bool)
    ensures onUpdate && onUnlink
  {
    hide RingsOk, CountsRight;
    var s := new Rings(8);
    s.Make(1, Stat(true, 2, 0));
    onUpdate := s.NotifyUpdate(1);
    s := new Rings(8);
    s.Make(1, Stat(true, 2, 0));
    onUnlink := s.Unlink(1, false);
  }
}
